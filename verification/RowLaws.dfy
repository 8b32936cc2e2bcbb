/** What one transaction's rows hold and when they can be built, said of the transaction message itself
    (reps/transaction/tx.rs, reps/timestamp.rs, and the files of tables/). */
module RowLaws {
  import opened Wrappers
  import Address
  import Changes
  import Signatures
  import SignatureRoles
  import SignatureLaws
  import WriteSetLaws
  import opened Tables

  // The header

  /** The transaction's type and the kind of its data belong together: one of six pairs. */
  predicate IsPair(t: TxType, data: TxnData) {
    || (t == User && data.UserData?)
    || (t == Genesis && data.GenesisData?)
    || (t == BlockMetadata && data.BlockMetadataData?)
    || (t == StateCheckpoint && data.StateCheckpointData?)
    || (t == Validator && data.ValidatorData?)
    || (t == BlockEpilogue && data.BlockEpilogueData?)
  }

  predicate HasTime(tx: Transaction) {
    tx.timestamp.Some? && tx.timestamp.value.nanos >= 0
  }

  /** A transaction converts exactly when its time is there and not negative, its type and data are one of the six pairs, its
      info is there, and its changes convert; and then nothing of it is altered. */
  lemma {:induction false} ConvertsExactly(tx: Transaction)
    ensures Extract(tx).Success? <==>
      && HasTime(tx) && tx.data.Some? && IsPair(tx.txType, tx.data.value) && tx.info.Some?
      && forall i :: 0 <= i < |tx.info.value.changes| ==> WriteSetLaws.Agrees(tx.info.value.changes[i])
    ensures Extract(tx).Success? ==>
      var x, info := Extract(tx).value, tx.info.value;
      && x.version == tx.version && x.blockHeight == tx.blockHeight && tx.timestamp == Some(x.unix) && tx.data == Some(x.data)
      && x.success == info.success && x.rest == info.rest && Changes.ExtractChanges(info.changes) == Success(x.changes)
  {
    hide Changes.ExtractChanges, WriteSetLaws.Agrees;
    if tx.info.Some? {
      WriteSetLaws.WriteSetConvertsExactly(tx.info.value.changes);
    }
  }

  /** Otherwise the error names what is wrong first: the time, the type, the data, then the info. */
  lemma {:induction false} ConversionErrors(tx: Transaction)
    requires Extract(tx).Failure?
    ensures
      var e := Extract(tx).error;
      && (e == MissingTimestamp <==> tx.timestamp.None?)
      && (e == NegativeNano <==> tx.timestamp.Some? && tx.timestamp.value.nanos < 0)
      && (e == UnspecifiedTxType <==> HasTime(tx) && tx.txType == Unspecified)
      && (e == MissingData <==> HasTime(tx) && tx.txType != Unspecified && tx.data.None?)
      && (e == InvalidData <==>
            HasTime(tx) && tx.txType != Unspecified && tx.data.Some? && !IsPair(tx.txType, tx.data.value))
      && (e == MissingInfo <==> HasTime(tx) && tx.data.Some? && IsPair(tx.txType, tx.data.value) && tx.info.None?)
      && (e.ChangeExtraction? <==> HasTime(tx) && tx.data.Some? && IsPair(tx.txType, tx.data.value) && tx.info.Some?)
  {
    hide Changes.ExtractChanges;
  }

  // The rows

  /** The events of a transaction; None for the kinds that have no list of them. */
  function EventsIn(data: TxnData): Option<seq<Event>> {
    if data.StateCheckpointData? || data.BlockEpilogueData? then None else Some(data.events)
  }

  lemma {:induction false} EventsAreIn(x: Extraction)
    ensures EventsOf(x) == EventsIn(x.data)
  {
  }

  /** Row i of the events table is event i: its key's account in repaired form, and its data. */
  predicate EventTells(f: Fields, i: nat, event: Event) {
    && f.EventFields? && f.eventIndex == i && f.data == event.data
    && event.key.Some? && Address.Fixed(event.key.value) == Success(f.address)
  }

  predicate EventEncodes(event: Event) {
    event.key.Some? && Address.Fixed(event.key.value).Success?
  }

  lemma {:induction false} EventFieldsExactly(x: Extraction, events: seq<Event>, n: nat)
    requires n <= |events|
    ensures EventFieldsOf(x, events, n).Success? <==>
      (n > 0 ==> Request(x).Success?) && forall i :: 0 <= i < n ==> EventEncodes(events[i])
    ensures EventFieldsOf(x, events, n).Success? ==>
      forall i :: 0 <= i < n ==> EventTells(EventFieldsOf(x, events, n).value[i], i, events[i])
  {
    hide Address.Fixed, Request;
    if n > 0 {
      EventFieldsExactly(x, events, n - 1);
    }
  }

  /** The events table: one row for each event, in order. */
  lemma {:induction false} EventsTell(tx: Transaction)
    requires ExtractRecords(tx).Success?
    ensures tx.data.Some? && |ExtractRecords(tx).value.events| == |EventsIn(tx.data.value).GetOr([])|
    ensures forall i :: 0 <= i < |ExtractRecords(tx).value.events| ==>
      EventTells(ExtractRecords(tx).value.events[i].fields, i, EventsIn(tx.data.value).GetOr([])[i])
  {
    hide BlockRow, ChangeRows, SignatureRows, TransactionRow, Extract, Request, EncodeTime, EventsIn, EventsOf, EventTells;
    ConvertsExactly(tx);
    var x := Extract(tx).value;
    EventsAreIn(x);
    if EventsOf(x).Some? {
      EventFieldsExactly(x, EventsOf(x).value, |EventsOf(x).value|);
    }
  }

  /** The blocks table: one row for a block-metadata transaction, of its height and its proposer in repaired form. */
  lemma {:induction false} BlocksTell(tx: Transaction)
    requires ExtractRecords(tx).Success?
    ensures
      var rows := ExtractRecords(tx).value.blocks;
      && tx.data.Some? && |rows| == (if tx.data.value.BlockMetadataData? then 1 else 0)
      && (tx.data.value.BlockMetadataData? ==>
            && rows[0].fields.BlockFields? && rows[0].fields.height == tx.blockHeight
            && Address.Fixed(tx.data.value.proposer) == Success(rows[0].fields.proposer))
  {
    hide EventRows, ChangeRows, SignatureRows, TransactionRow, Extract, EncodeTime, Address.Fixed;
    ConvertsExactly(tx);
  }

  /** The signatures table: for a user transaction the rows of its signature, for others none. */
  lemma {:induction false} SignaturesTell(tx: Transaction)
    requires ExtractRecords(tx).Success?
    ensures
      var rows := ExtractRecords(tx).value.signatures;
      && tx.data.Some? && (!tx.data.value.UserData? ==> rows == [])
      && (tx.data.value.UserData? ==>
            && tx.data.value.request.Some? && tx.data.value.request.value.signature.Some?
            && var r := SignatureRoles.GetSignatures(tx.version, tx.data.value.request.value.sender,
                                                     tx.data.value.request.value.signature.value);
               && r.Success? && |rows| == |r.value|
               && forall i :: 0 <= i < |rows| ==> rows[i].fields == SignatureFields(r.value[i]))
  {
    hide EventRows, ChangeRows, BlockRow, TransactionRow, Extract, EncodeTime, SignatureRoles.GetSignatures,
         SignatureRoles.FromSignature;
    ConvertsExactly(tx);
  }

  /** The counts of the write set's changes. */
  function CountsOf(ws: seq<Changes.WriteSetChange>): Changes.ChangesAggregate {
    Changes.ChangesAggregate(
      |ws|, WriteSetLaws.Number(ws, Changes.DeleteModule), WriteSetLaws.Number(ws, Changes.WriteModule),
      WriteSetLaws.Number(ws, Changes.DeleteResource), WriteSetLaws.Number(ws, Changes.WriteResource),
      WriteSetLaws.Number(ws, Changes.DeleteTableItem), WriteSetLaws.Number(ws, Changes.WriteTableItem))
  }

  lemma {:induction false} TransactionRowTells(x: Extraction, sigCount: Option<nat>)
    requires TransactionRow(x, sigCount).Success? && Changes.AllWellTyped(x.changes)
    ensures
      var f := TransactionRow(x, sigCount).value.fields;
      && f.TransactionFields? && x.rest == Success(f.rest) && f.success == x.success
      && Success(f.numChanges) == Changes.CalculateAggregate(x.changes)
      && f.numEvents == (if EventsIn(x.data).Some? then Some(|EventsIn(x.data).value|) else None)
      && (x.data.UserData? && sigCount.Some? ==> f.numSignatures == sigCount)
      && (!x.data.UserData? && sigCount.None? ==> f.numSignatures.None?)
      && (!x.data.UserData? ==> f.sender.None?)
      && (x.data.UserData? ==> x.data.request.Some?)
      && (x.data.UserData? ==> (f.sender.Some? <==> Address.Fixed(x.data.request.value.sender).Success?))
      && (x.data.UserData? && f.sender.Some? ==> Address.Fixed(x.data.request.value.sender) == Success(f.sender.value))
  {
    hide Address.Fixed, EncodeTime, Changes.CalculateAggregate;
    EventsAreIn(x);
  }

  /** The transactions table: one row that counts the changes of each type, the events and the signatures rows, and carries the
      success flag, the sender in repaired form, and the remaining columns. */
  lemma {:induction false} TransactionTells(tx: Transaction)
    requires ExtractRecords(tx).Success?
    ensures
      var r := ExtractRecords(tx).value;
      && |r.transactions| == 1 && tx.info.Some? && tx.data.Some?
      && var f, info, data := r.transactions[0].fields, tx.info.value, tx.data.value;
      && f.TransactionFields? && f.numChanges == CountsOf(info.changes)
      && f.numEvents == (if EventsIn(data).Some? then Some(|EventsIn(data).value|) else None)
      && f.numSignatures == (if data.UserData? then Some(|r.signatures|) else None)
      && f.success == info.success && info.rest == Success(f.rest)
      && (!data.UserData? ==> f.sender.None?)
      && (data.UserData? ==> data.request.Some? && f.sender.Some? && Address.Fixed(data.request.value.sender) == Success(f.sender.value))
  {
    hide EventRows, ChangeRows, BlockRow, SignatureRows, TransactionRow, Extract, EncodeTime, Changes.CalculateAggregate, EventsIn;
    ConvertsExactly(tx);
    var x := Extract(tx).value;
    var signatures := SignatureRows(x).value;
    SignaturesOnlyForUsers(x);
    TransactionRowTells(x, Count(signatures));
    WriteSetLaws.AggregateCountsWriteSet(tx.info.value.changes);
    if x.data.UserData? {
      SenderRepairs(x);
    }
  }

  lemma {:induction false} SenderRepairs(x: Extraction)
    requires x.data.UserData? && SignatureRows(x).Success?
    ensures x.data.request.Some? && Address.Fixed(x.data.request.value.sender).Success?
  {
    hide Address.Fixed, SignatureRoles.FromSignature, EncodeTime, SignatureRoles.ResolveAll;
  }

  /** The changes table and its three sub-tables hold, row by row, what the write set's changes say. */
  lemma {:induction false} ChangesTell(tx: Transaction)
    requires ExtractRecords(tx).Success?
    ensures
      && tx.info.Some? && Changes.ExtractChanges(tx.info.value.changes).Success?
      && Changes.ChangesOf(Changes.ExtractChanges(tx.info.value.changes).value).Success?
    ensures
      var ws, records := tx.info.value.changes, ExtractRecords(tx).value;
      var r := Changes.ChangesOf(Changes.ExtractChanges(ws).value).value;
      && |records.changes| == |r.changes| == |ws|
      && |records.modules| == |r.modules| && |records.resources| == |r.resources| && |records.tableItems| == |r.tableItems|
      && (forall i :: 0 <= i < |ws| ==>
            records.changes[i].fields == ChangeFields(r.changes[i]) && WriteSetLaws.RowTells(r.changes[i], i, ws[i]))
      && (forall i :: 0 <= i < |r.modules| ==> records.modules[i].fields == ModuleFields(r.modules[i]))
      && (forall i :: 0 <= i < |r.resources| ==> records.resources[i].fields == ResourceFields(r.resources[i]))
      && (forall i :: 0 <= i < |r.tableItems| ==> records.tableItems[i].fields == TableItemFields(r.tableItems[i]))
      && |Changes.Merged(r)| == |ws|
      && forall i :: 0 <= i < |ws| ==> WriteSetLaws.Tells(Changes.Merged(r)[i], i, ws[i], r.changes[i].address)
  {
    hide EventRows, BlockRow, SignatureRows, TransactionRow, Extract, EncodeTime, Request, Changes.ChangesOf, Changes.ExtractChanges,
         Changes.Merged, WriteSetLaws.Tells, WriteSetLaws.RowTells, Changes.Bounded;
    ConvertsExactly(tx);
    WriteSetLaws.TablesTellWriteSet(tx.info.value.changes);
  }

  // When they can be built

  /** A time has a text from 1900 on; up to the end of 9999 its fraction must be below a second, or two in a leap second. */
  predicate TimeEncodes(t: UnixTimestamp) {
    && t.seconds >= -2208988800
    && (t.seconds <= 253402300799 ==> t.nanos < 1000000000 || (t.nanos < 2000000000 && t.seconds % 60 == 59))
  }

  lemma {:induction false} TimeEncodesExactly(t: UnixTimestamp)
    ensures EncodeTime(t).Success? <==> TimeEncodes(t)
  {
  }

  predicate EventsEncode(events: seq<Event>) {
    forall i :: 0 <= i < |events| ==> EventEncodes(events[i])
  }

  /** What a transaction's data must hold for its rows: a user's request, its signature and their addresses; a proposer's
      address; and the events' keys. */
  predicate DataEncodes(version: nat, data: TxnData) {
    match data
    case UserData(request, events) =>
      && request.Some? && request.value.signature.Some? && EventsEncode(events)
      && SignatureRoles.GetSignatures(version, request.value.sender, request.value.signature.value).Success?
    case BlockMetadataData(proposer, events) => Address.Fixed(proposer).Success? && EventsEncode(events)
    case GenesisData(events) => EventsEncode(events)
    case ValidatorData(events) => EventsEncode(events)
    case StateCheckpointData => true
    case BlockEpilogueData => true
  }

  /** A transaction's rows can be built exactly when it converts, its time has a text, its data and its changes encode, and so
      do the remaining columns. */
  lemma {:induction false} RowsExactly(tx: Transaction)
    ensures ExtractRecords(tx).Success? <==>
      && HasTime(tx) && tx.data.Some? && IsPair(tx.txType, tx.data.value) && tx.info.Some?
      && TimeEncodes(tx.timestamp.value) && DataEncodes(tx.version, tx.data.value) && tx.info.value.rest.Success?
      && forall i :: 0 <= i < |tx.info.value.changes| ==>
           WriteSetLaws.Agrees(tx.info.value.changes[i]) && WriteSetLaws.Printable(tx.info.value.changes[i])
  {
    hide BlockRow, ChangeRows, EventRows, SignatureRows, TransactionRow, Extract, IsPair, TimeEncodes, DataEncodes,
         WriteSetLaws.Agrees, WriteSetLaws.Printable;
    ConvertsExactly(tx);
    if Extract(tx).Success? {
      var x := Extract(tx).value;
      assert Changes.AllWellTyped(x.changes);
      TablesBuildExactly(x);
      WriteSetLaws.RowsSucceedExactly(tx.info.value.changes);
    }
  }

  lemma {:induction false} BlockBuildsExactly(x: Extraction)
    ensures BlockRow(x).Success? <==> x.data.BlockMetadataData? ==> TimeEncodes(x.unix) && Address.Fixed(x.data.proposer).Success?
  {
    hide Address.Fixed;
    TimeEncodesExactly(x.unix);
  }

  lemma {:induction false} ChangesBuildExactly(x: Extraction)
    ensures ChangeRows(x).Success? <==>
      TimeEncodes(x.unix) && (x.data.UserData? ==> x.data.request.Some?) && Changes.ChangesOf(x.changes).Success?
  {
    hide Changes.ChangesOf;
    TimeEncodesExactly(x.unix);
  }

  lemma {:induction false} EventsBuildExactly(x: Extraction)
    requires x.data.UserData? ==> x.data.request.Some?
    ensures EventRows(x).Success? <==> EventsIn(x.data).Some? ==> TimeEncodes(x.unix) && EventsEncode(EventsIn(x.data).value)
  {
    hide EventFieldsOf, EventEncodes;
    TimeEncodesExactly(x.unix);
    EventsAreIn(x);
    if EventsOf(x).Some? {
      EventFieldsExactly(x, EventsOf(x).value, |EventsOf(x).value|);
    }
  }

  lemma {:induction false} SignaturesBuildExactly(x: Extraction)
    ensures SignatureRows(x).Success? <==> x.data.UserData? ==>
      && x.data.request.Some? && x.data.request.value.signature.Some? && TimeEncodes(x.unix)
      && SignatureRoles.GetSignatures(x.version, x.data.request.value.sender, x.data.request.value.signature.value).Success?
  {
    hide SignatureRoles.FromSignature, Address.Fixed, SignatureRoles.ResolveAll;
    TimeEncodesExactly(x.unix);
  }

  lemma {:induction false} TransactionBuildsExactly(x: Extraction)
    requires Changes.AllWellTyped(x.changes) && SignatureRows(x).Success?
    ensures TransactionRow(x, Count(SignatureRows(x).value)).Success? <==> x.rest.Success? && TimeEncodes(x.unix)
  {
    hide Address.Fixed, SignatureRows, Changes.CalculateAggregate, Changes.AllWellTyped, EventsOf;
    TimeEncodesExactly(x.unix);
    SignaturesOnlyForUsers(x);
    Changes.NothingUnaccounted(x.changes);
    if x.data.UserData? {
      SenderRepairs(x);
    }
  }

  lemma {:induction false} TablesBuildExactly(x: Extraction)
    requires Changes.AllWellTyped(x.changes)
    ensures
      BlockRow(x).Success? && ChangeRows(x).Success? && EventRows(x).Success? && SignatureRows(x).Success?
        && TransactionRow(x, Count(SignatureRows(x).value)).Success?
      <==> TimeEncodes(x.unix) && DataEncodes(x.version, x.data) && Changes.ChangesOf(x.changes).Success? && x.rest.Success?
  {
    hide BlockRow, ChangeRows, EventRows, SignatureRows, TransactionRow, TimeEncodes, EventsEncode, Changes.AllWellTyped,
         Changes.ChangesOf, Address.Fixed, SignatureRoles.GetSignatures;
    BlockBuildsExactly(x);
    ChangesBuildExactly(x);
    if x.data.UserData? ==> x.data.request.Some? {
      EventsBuildExactly(x);
    }
    SignaturesBuildExactly(x);
    if SignatureRows(x).Success? {
      TransactionBuildsExactly(x);
    }
  }

  // Why they cannot

  /** A time without a text is too early for BigQuery, or has a fraction that no UTC time has. */
  lemma {:induction false} TimeErrors(t: UnixTimestamp)
    requires EncodeTime(t).Failure?
    ensures EncodeTime(t).error == if t.seconds < -2208988800 then OutOfRangeBigQuery else OutOfRangeUtc
  {
  }

  /** The second a text names is the time's own, and the last of 9999 for every later time. */
  lemma {:induction false} EncodedSecondExactly(t: UnixTimestamp)
    ensures EncodedSecond(t) == if t.seconds <= 253402300799 then t.seconds else 253402300799
  {
  }

  /** The signatures rows fail for the first thing missing: the request, its signature, a signature that flattens, a time that
      encodes, addresses that repair. */
  lemma {:induction false} SignatureRowErrors(x: Extraction)
    requires SignatureRows(x).Failure?
    ensures x.data.UserData?
    ensures x.data.request.None? ==> SignatureRows(x).error == MissingUserRequest
    ensures x.data.request.Some? && x.data.request.value.signature.None? ==> SignatureRows(x).error == MissingSignature
    ensures x.data.request.Some? && x.data.request.value.signature.Some? ==>
      var v := x.data.request.value.signature.value;
      var rows := SignatureRoles.GetSignatures(x.version, x.data.request.value.sender, v);
      SignatureRows(x).error ==
        if SignatureRoles.FromSignature(v).Failure?
        then SigProcess(SignatureRoles.SubRecordFailure(SignatureRoles.FromSignature(v).error))
        else if EncodeTime(x.unix).Failure? then EncodeTime(x.unix).error
        else if rows.Failure? then SigProcess(rows.error) else SignatureRows(x).error
  {
    hide SignatureRoles.FromSignature, SignatureRoles.GetSignatures, EncodeTime;
  }

  /** The other builders' errors: a user transaction without a request stops its changes, a block its proposer's address. */
  lemma {:induction false} OtherErrors(x: Extraction)
    ensures ChangeRows(x).Failure? && EncodeTime(x.unix).Success? && x.data.UserData? && x.data.request.None? ==>
      ChangeRows(x).error == MissingUserRequest
    ensures ChangeRows(x).Failure? && EncodeTime(x.unix).Success? && (x.data.UserData? ==> x.data.request.Some?) ==>
      Changes.ChangesOf(x.changes).Failure? && ChangeRows(x).error == ChangeProcess(Changes.ChangesOf(x.changes).error)
    ensures BlockRow(x).Failure? && EncodeTime(x.unix).Success? ==>
      x.data.BlockMetadataData? && Address.Fixed(x.data.proposer).Failure?
      && BlockRow(x).error == BadAddress(Address.Fixed(x.data.proposer).error)
  {
    hide Changes.ChangesOf, Address.Fixed, EncodeTime;
  }

  /** Event k is the first that does not encode. */
  predicate FirstEventFails(events: seq<Event>, k: nat) {
    k < |events| && !EventEncodes(events[k]) && forall i :: 0 <= i < k ==> EventEncodes(events[i])
  }

  predicate EventBlamed(event: Event, e: RecordError) {
    if event.key.None? then e == MissingEventKey
    else Address.Fixed(event.key.value).Failure? && e == BadAddress(Address.Fixed(event.key.value).error)
  }

  lemma {:induction false} EventErrors(x: Extraction, events: seq<Event>, n: nat)
    requires n <= |events| && EventFieldsOf(x, events, n).Failure? && Request(x).Success?
    ensures exists k: nat :: k < n && FirstEventFails(events, k) && EventBlamed(events[k], EventFieldsOf(x, events, n).error)
  {
    hide Address.Fixed, Request;
    EventFieldsExactly(x, events, n - 1);
    if EventFieldsOf(x, events, n - 1).Failure? {
      EventErrors(x, events, n - 1);
    } else {
      assert FirstEventFails(events, n - 1) && EventBlamed(events[n - 1], EventFieldsOf(x, events, n).error);
    }
  }

  /** The sender column stops a successful transaction whose sender does not repair, and stays empty in a failed one. */
  lemma {:induction false} SenderExactly(x: Extraction)
    requires x.data.UserData? && x.data.request.Some?
    ensures
      var repaired := Address.Fixed(x.data.request.value.sender);
      Sender(x) ==
        if repaired.Success? then Success(Some(repaired.value))
        else if x.success then Failure(BadAddress(repaired.error)) else Success(None)
  {
    hide Address.Fixed;
  }

  /** Only a successful user transaction needs its signatures counted; without a count that is an error. */
  lemma {:induction false} NumSignaturesExactly(x: Extraction, sigCount: Option<nat>)
    ensures NumSignatures(x, sigCount).Failure? <==> x.success && x.data.UserData? && sigCount.None?
    ensures NumSignatures(x, sigCount).Failure? ==> NumSignatures(x, sigCount).error == MissingSigCount
    ensures NumSignatures(x, sigCount).Success? ==>
      NumSignatures(x, sigCount).value == if x.success && !x.data.UserData? then None else sigCount
  {
  }

  // An ordinary transaction

  /** A user transaction that an Ed25519 account signed, with no changes. */
  function UserTransaction(version: nat, height: int, time: UnixTimestamp, sender: string, key: Signatures.Ed25519Proto,
                           events: seq<Event>, success: bool, rest: string): Transaction {
    Transaction(version, height, Some(time), User,
      Some(UserData(Some(UserRequest(sender, Some(Signatures.Signature(Signatures.Ed25519, Some(Signatures.Ed25519Data(key)))))), events)),
      Some(TxInfo(success, [], Success(rest))))
  }

  /** It extracts to one transactions row, one signatures row with its key and its signature, and a row for each event. */
  lemma {:induction false} UserTransactionExtracts(version: nat, height: int, time: UnixTimestamp, sender: string, key: Signatures.Ed25519Proto,
                                                   events: seq<Event>, success: bool, rest: string)
    requires time.nanos >= 0 && TimeEncodes(time) && Address.Fixed(sender).Success? && EventsEncode(events)
    ensures
      var r := ExtractRecords(UserTransaction(version, height, time, sender, key, events, success, rest));
      && r.Success? && |r.value.transactions| == 1 && |r.value.events| == |events| && r.value.blocks == []
      && r.value.changes == [] && r.value.modules == [] && r.value.resources == [] && r.value.tableItems == []
      && r.value.transactions[0] == Row(version, time,
           TransactionFields(Changes.ChangesAggregate(0, 0, 0, 0, 0, 0, 0), Some(|events|), Some(1), success,
                             Some(Address.Fixed(sender).value), rest))
      && r.value.signatures == [Row(version, time, SignatureFields(SignatureRoles.SignatureRow(
           version, Signatures.PublicKey("ed25519", "0x" + Address.HexEncode(key.publicKey), None),
           Some(Signatures.SigValue("ed25519", "0x" + Address.HexEncode(key.signature), None)), None, Signatures.Ed25519,
           Address.Fixed(sender).value, None, None, None)))]
  {
    hide Address.Fixed, ExtractRecords, EventsEncode, TimeEncodes, Address.HexEncode, Changes.ExtractChanges, Changes.ChangesOf,
         SignatureRoles.GetSignatures, WriteSetLaws.Tells, WriteSetLaws.RowTells;
    var tx := UserTransaction(version, height, time, sender, key, events, success, rest);
    OneSignatureRow(version, sender, key);
    RowsExactly(tx);
    RowsAreFiled(tx);
    var r := ExtractRecords(tx).value;
    assert Filed(tx, r.At(TransactionsTable), TransactionsTable) && Filed(tx, r.At(SignaturesTable), SignaturesTable);
    TransactionTells(tx);
    SignaturesTell(tx);
    EventsTell(tx);
    BlocksTell(tx);
    NoChangesTell(tx);
  }

  lemma {:induction false} NoChangesTell(tx: Transaction)
    requires ExtractRecords(tx).Success? && tx.info.Some? && tx.info.value.changes == []
    ensures
      var r := ExtractRecords(tx).value;
      r.changes == [] && r.modules == [] && r.resources == [] && r.tableItems == []
  {
    hide ExtractRecords;
    ChangesTell(tx);
  }

  lemma {:induction false} OneSignatureRow(version: nat, sender: string, key: Signatures.Ed25519Proto)
    requires Address.Fixed(sender).Success?
    ensures SignatureRoles.GetSignatures(version, sender, Signatures.Signature(Signatures.Ed25519, Some(Signatures.Ed25519Data(key))))
      == Success([SignatureRoles.SignatureRow(
           version, Signatures.PublicKey("ed25519", "0x" + Address.HexEncode(key.publicKey), None),
           Some(Signatures.SigValue("ed25519", "0x" + Address.HexEncode(key.signature), None)), None, Signatures.Ed25519,
           Address.Fixed(sender).value, None, None, None)])
  {
    hide Address.Fixed, Address.HexEncode, SignatureRoles.Resolve, Signatures.FromEd25519, SignatureRoles.ResolveAll;
    var signature := Signatures.Signature(Signatures.Ed25519, Some(Signatures.Ed25519Data(key)));
    var subs, signer := [Signatures.FromEd25519(key)], Address.Fixed(sender).value;
    assert SignatureRoles.FromSignature(signature) == Success(subs);
    EdResolves(version, signer, key);
    SignatureLaws.ResolvesAll(version, signer, subs, 1);
    SignatureRoles.ResolveEach(version, signer, subs, 1);
    var rows := SignatureRoles.ResolveAll(version, signer, subs, 1).value;
    assert SignatureRoles.Resolve(version, signer, subs[0]) == Success(rows[0]);
    assert SignatureRoles.GetSignatures(version, sender, signature) == Success(rows);
    assert rows == [rows[0]];
  }

  lemma {:induction false} EdResolves(version: nat, signer: string, key: Signatures.Ed25519Proto)
    ensures SignatureRoles.Resolve(version, signer, Signatures.FromEd25519(key)) == Success(SignatureRoles.SignatureRow(
      version, Signatures.PublicKey("ed25519", "0x" + Address.HexEncode(key.publicKey), None),
      Some(Signatures.SigValue("ed25519", "0x" + Address.HexEncode(key.signature), None)), None, Signatures.Ed25519,
      signer, None, None, None))
  {
    hide Address.Fixed, Address.HexEncode;
  }
}
