/** Rows of the eight tables and the builders that turn one transaction into them
    (reps/transaction/tx.rs, reps/transaction/tx_data.rs, and the files of tables/). */
module Tables {
  import opened Wrappers
  import Address
  import Changes
  import Signatures
  import SignatureRoles

  datatype Table =
    | TransactionsTable | ChangesTable | ModulesTable | TableItemsTable
    | ResourcesTable | BlocksTable | EventsTable | SignaturesTable

  datatype UnixTimestamp = UnixTimestamp(seconds: int, nanos: int)

  datatype Fields =
    | TransactionFields(numChanges: Changes.ChangesAggregate, numEvents: Option<nat>, numSignatures: Option<nat>,
                        success: bool, sender: Option<string>, rest: string)
    | BlockFields(height: int, proposer: string)
    | ChangeFields(change: Changes.ChangeRow)
    | ModuleFields(moduleRow: Changes.ModuleRow)
    | ResourceFields(resource: Changes.ResourceRow)
    | TableItemFields(item: Changes.TableItemRow)
    | EventFields(eventIndex: nat, address: string, data: string)
    | SignatureFields(signature: SignatureRoles.SignatureRow)

  datatype Row = Row(version: nat, unix: UnixTimestamp, fields: Fields)

  function TableOf(f: Fields): Table {
    match f
    case TransactionFields(_, _, _, _, _, _) => TransactionsTable
    case BlockFields(_, _) => BlocksTable
    case ChangeFields(_) => ChangesTable
    case ModuleFields(_) => ModulesTable
    case ResourceFields(_) => ResourcesTable
    case TableItemFields(_) => TableItemsTable
    case EventFields(_, _, _) => EventsTable
    case SignatureFields(_) => SignaturesTable
  }

  /** One value for each table. */
  datatype ByTable<T> = ByTable(
    transactions: T, changes: T, modules: T, tableItems: T, resources: T, blocks: T, events: T, signatures: T)
  {
    function At(t: Table): T {
      match t
      case TransactionsTable => transactions
      case ChangesTable => changes
      case ModulesTable => modules
      case TableItemsTable => tableItems
      case ResourcesTable => resources
      case BlocksTable => blocks
      case EventsTable => events
      case SignaturesTable => signatures
    }

    function With(t: Table, value: T): (r: ByTable<T>)
      ensures forall u: Table :: r.At(u) == if u == t then value else At(u)
    {
      match t
      case TransactionsTable => this.(transactions := value)
      case ChangesTable => this.(changes := value)
      case ModulesTable => this.(modules := value)
      case TableItemsTable => this.(tableItems := value)
      case ResourcesTable => this.(resources := value)
      case BlocksTable => this.(blocks := value)
      case EventsTable => this.(events := value)
      case SignaturesTable => this.(signatures := value)
    }
  }

  /** The container of every table's rows. */
  type Records = ByTable<seq<Row>>

  const Empty: Records := ByTable([], [], [], [], [], [], [], [])

  // Input

  datatype UserRequest = UserRequest(sender: string, signature: Option<Signatures.Signature>)

  /** An event: its key's address if it has a key, and its data. */
  datatype Event = Event(key: Option<string>, data: string)

  datatype TxType = Unspecified | User | Genesis | BlockMetadata | StateCheckpoint | Validator | BlockEpilogue

  datatype TxnData =
    | UserData(request: Option<UserRequest>, events: seq<Event>)
    | GenesisData(events: seq<Event>)
    | BlockMetadataData(proposer: string, events: seq<Event>)
    | StateCheckpointData
    | ValidatorData(events: seq<Event>)
    | BlockEpilogueData

  /** What the remaining columns of the transactions table encode to, or the error that stops them. */
  type OtherColumns = Result<string, string>

  datatype TxInfo = TxInfo(success: bool, changes: seq<Changes.WriteSetChange>, rest: OtherColumns)

  datatype Transaction = Transaction(
    version: nat, blockHeight: int, timestamp: Option<UnixTimestamp>, txType: TxType, data: Option<TxnData>, info: Option<TxInfo>)

  datatype RecordError =
    | MissingTimestamp | NegativeNano | UnspecifiedTxType | MissingData | InvalidData | MissingInfo
    | ChangeExtraction(cause: Changes.ExtractError)
    | OutOfRangeBigQuery | OutOfRangeUtc
    | MissingUserRequest | MissingSignature | MissingEventKey | MissingSigCount
    | SigProcess(signature: SignatureRoles.SigProcessError)
    | ChangeProcess(change: Changes.ChangeError)
    | BadAddress(address: Address.AddressErrorType)
    | OtherColumn(column: string)

  /** A transaction whose type, data, time and changes have been checked. */
  datatype Extraction = Extraction(
    version: nat, blockHeight: int, unix: UnixTimestamp, data: TxnData, success: bool,
    changes: seq<Changes.IncompleteChange>, rest: OtherColumns)

  predicate Matches(t: TxType, data: TxnData) {
    match t
    case Unspecified => false
    case User => data.UserData?
    case Genesis => data.GenesisData?
    case BlockMetadata => data.BlockMetadataData?
    case StateCheckpoint => data.StateCheckpointData?
    case Validator => data.ValidatorData?
    case BlockEpilogue => data.BlockEpilogueData?
  }

  /** `TransactionExtraction::try_from`. */
  function Extract(tx: Transaction): (r: Result<Extraction, RecordError>)
    ensures r.Success? ==> r.value.version == tx.version && Changes.AllWellTyped(r.value.changes)
  {
    if tx.timestamp.None? then Failure(MissingTimestamp)
    else if tx.timestamp.value.nanos < 0 then Failure(NegativeNano)
    else if tx.txType.Unspecified? then Failure(UnspecifiedTxType)
    else if tx.data.None? then Failure(MissingData)
    else if !Matches(tx.txType, tx.data.value) then Failure(InvalidData)
    else if tx.info.None? then Failure(MissingInfo)
    else
      match Changes.ExtractChanges(tx.info.value.changes)
      case Failure(e) => Failure(ChangeExtraction(e))
      case Success(changes) =>
        Success(Extraction(tx.version, tx.blockHeight, tx.timestamp.value, tx.data.value, tx.info.value.success,
                           changes, tx.info.value.rest))
  }

  // Times

  const BIGQUERY_MAX_SECONDS := 253402300799
  const BIGQUERY_MIN_SECONDS := -2208988800

  /** Nanoseconds a UTC time can hold: below one second, or in a leap second. */
  predicate ValidNanos(t: UnixTimestamp) {
    t.nanos < 1000000000 || (t.nanos < 2000000000 && t.seconds % 60 == 59)
  }

  /** `Timestamp::try_encode`: whether the time has a text form. Times past the maximum are clamped. */
  function EncodeTime(t: UnixTimestamp): Result<(), RecordError> {
    if t.seconds < BIGQUERY_MIN_SECONDS then Failure(OutOfRangeBigQuery)
    else if t.seconds > BIGQUERY_MAX_SECONDS || ValidNanos(t) then Success(())
    else Failure(OutOfRangeUtc)
  }

  /** The second that a time's text form names: the default format cuts fractions, and late times are clamped. */
  function EncodedSecond(t: UnixTimestamp): int {
    if t.seconds > BIGQUERY_MAX_SECONDS then BIGQUERY_MAX_SECONDS else t.seconds
  }

  function EncodeAddress(a: string): Result<string, RecordError> {
    match Address.Fixed(a)
    case Success(s) => Success(s)
    case Failure(e) => Failure(BadAddress(e))
  }

  // Builders

  /** The user request of a user transaction; None for the other types. */
  function Request(x: Extraction): Result<Option<UserRequest>, RecordError> {
    match x.data
    case UserData(request, _) => if request.Some? then Success(request) else Failure(MissingUserRequest)
    case _ => Success(None)
  }

  function EventsOf(x: Extraction): Option<seq<Event>> {
    match x.data
    case UserData(_, events) => Some(events)
    case GenesisData(events) => Some(events)
    case BlockMetadataData(_, events) => Some(events)
    case ValidatorData(events) => Some(events)
    case _ => None
  }

  function Rows(x: Extraction, fields: seq<Fields>): (rows: seq<Row>)
    ensures |rows| == |fields|
    ensures forall i :: 0 <= i < |rows| ==> rows[i] == Row(x.version, x.unix, fields[i])
  {
    seq(|fields|, i requires 0 <= i < |fields| => Row(x.version, x.unix, fields[i]))
  }

  function SignatureFieldsOf(rs: seq<SignatureRoles.SignatureRow>): (fs: seq<Fields>)
    ensures |fs| == |rs| && forall i :: 0 <= i < |fs| ==> fs[i] == SignatureFields(rs[i])
  {
    seq(|rs|, i requires 0 <= i < |rs| => SignatureFields(rs[i]))
  }

  /** `get_signatures`: nothing for other than user transactions. */
  function SignatureRows(x: Extraction): Result<Option<seq<Row>>, RecordError> {
    var request :- Request(x);
    if request.None? then Success(None)
    else if request.value.signature.None? then Failure(MissingSignature)
    else
      var signature := request.value.signature.value;
      match SignatureRoles.FromSignature(signature)
      case Failure(e) => Failure(SigProcess(SignatureRoles.SubRecordFailure(e)))
      case Success(_) =>
        var _ :- EncodeTime(x.unix);
        match SignatureRoles.GetSignatures(x.version, request.value.sender, signature)
        case Failure(e) => Failure(SigProcess(e))
        case Success(rows) => Success(Some(Rows(x, SignatureFieldsOf(rows))))
  }

  /** `get_block`. */
  function BlockRow(x: Extraction): Result<Option<Row>, RecordError> {
    if !x.data.BlockMetadataData? then Success(None)
    else
      var _ :- EncodeTime(x.unix);
      var proposer :- EncodeAddress(x.data.proposer);
      Success(Some(Row(x.version, x.unix, BlockFields(x.blockHeight, proposer))))
  }

  /** The sender column: a failed transaction leaves it blank where a successful one stops. */
  function Sender(x: Extraction): Result<Option<string>, RecordError> {
    var request :- Request(x);
    if request.None? then Success(None)
    else
      match EncodeAddress(request.value.sender)
      case Success(s) => Success(Some(s))
      case Failure(e) => if x.success then Failure(e) else Success(None)
  }

  function NumSignatures(x: Extraction, sigCount: Option<nat>): Result<Option<nat>, RecordError> {
    if !x.success then Success(sigCount)
    else if !x.data.UserData? then Success(None)
    else if sigCount.None? then Failure(MissingSigCount)
    else Success(sigCount)
  }

  /** `get_transactions`. */
  function TransactionRow(x: Extraction, sigCount: Option<nat>): Result<Row, RecordError> {
    match x.rest
    case Failure(e) => Failure(OtherColumn(e))
    case Success(rest) =>
      var _ :- EncodeTime(x.unix);
      var sender :- Sender(x);
      match Changes.CalculateAggregate(x.changes)
      case Failure(e) => Failure(ChangeExtraction(e))
      case Success(aggregate) =>
        var numEvents := if EventsOf(x).Some? then Some(|EventsOf(x).value|) else None;
        var numSignatures :- NumSignatures(x, sigCount);
        Success(Row(x.version, x.unix, TransactionFields(aggregate, numEvents, numSignatures, x.success, sender, rest)))
  }

  /** The first n events' fields; the first event that fails is the error. */
  function EventFieldsOf(x: Extraction, events: seq<Event>, n: nat): (r: Result<seq<Fields>, RecordError>)
    requires n <= |events|
    ensures r.Success? ==> |r.value| == n && forall i :: 0 <= i < n ==> r.value[i].EventFields? && r.value[i].eventIndex == i
  {
    if n == 0 then Success([])
    else
      var before :- EventFieldsOf(x, events, n - 1);
      var event := events[n - 1];
      if event.key.None? then Failure(MissingEventKey)
      else
        var _ :- Request(x);
        var address :- EncodeAddress(event.key.value);
        Success(before + [EventFields(n - 1, address, event.data)])
  }

  /** `get_events`: nothing for state checkpoints and block epilogues. */
  function EventRows(x: Extraction): Result<Option<seq<Row>>, RecordError> {
    var events := EventsOf(x);
    if events.None? then Success(None)
    else
      var _ :- EncodeTime(x.unix);
      var fields :- EventFieldsOf(x, events.value, |events.value|);
      Success(Some(Rows(x, fields)))
  }

  /** `get_changes`: the changes table's rows and those of its three sub-tables. */
  function ChangeRows(x: Extraction): Result<Changes.ChangeRecords, RecordError> {
    var _ :- EncodeTime(x.unix);
    var _ :- Request(x);
    match Changes.ChangesOf(x.changes)
    case Failure(e) => Failure(ChangeProcess(e))
    case Success(r) => Success(r)
  }

  function ChangeFieldsOf(rs: seq<Changes.ChangeRow>): (fs: seq<Fields>)
    ensures |fs| == |rs| && forall i :: 0 <= i < |fs| ==> fs[i] == ChangeFields(rs[i])
  {
    seq(|rs|, i requires 0 <= i < |rs| => ChangeFields(rs[i]))
  }

  function ModuleFieldsOf(rs: seq<Changes.ModuleRow>): (fs: seq<Fields>)
    ensures |fs| == |rs| && forall i :: 0 <= i < |fs| ==> fs[i] == ModuleFields(rs[i])
  {
    seq(|rs|, i requires 0 <= i < |rs| => ModuleFields(rs[i]))
  }

  function ResourceFieldsOf(rs: seq<Changes.ResourceRow>): (fs: seq<Fields>)
    ensures |fs| == |rs| && forall i :: 0 <= i < |fs| ==> fs[i] == ResourceFields(rs[i])
  {
    seq(|rs|, i requires 0 <= i < |rs| => ResourceFields(rs[i]))
  }

  function TableItemFieldsOf(rs: seq<Changes.TableItemRow>): (fs: seq<Fields>)
    ensures |fs| == |rs| && forall i :: 0 <= i < |fs| ==> fs[i] == TableItemFields(rs[i])
  {
    seq(|rs|, i requires 0 <= i < |rs| => TableItemFields(rs[i]))
  }

  function OrNone(rows: Option<seq<Row>>): seq<Row> {
    rows.GetOr([])
  }

  function Single(row: Option<Row>): seq<Row> {
    if row.Some? then [row.value] else []
  }

  function Count(rows: Option<seq<Row>>): Option<nat> {
    if rows.Some? then Some(|rows.value|) else None
  }

  /** `extract_records`: the simple per-transaction form. */
  function ExtractRecords(tx: Transaction): Result<Records, RecordError> {
    var x :- Extract(tx);
    var block :- BlockRow(x);
    var changes :- ChangeRows(x);
    var events :- EventRows(x);
    var signatures :- SignatureRows(x);
    var row :- TransactionRow(x, Count(signatures));
    Success(ByTable([row], Rows(x, ChangeFieldsOf(changes.changes)), Rows(x, ModuleFieldsOf(changes.modules)),
                    Rows(x, TableItemFieldsOf(changes.tableItems)), Rows(x, ResourceFieldsOf(changes.resources)),
                    Single(block), OrNone(events), OrNone(signatures)))
  }

  /** `extract_records` as written: a container filled table by table. */
  method BuildRecords(tx: Transaction) returns (r: Result<Records, RecordError>)
    ensures r == ExtractRecords(tx)
  {
    hide Extract, BlockRow, ChangeRows, EventRows, SignatureRows, TransactionRow;
    var records := Empty;
    var extraction := Extract(tx);
    if extraction.Failure? {
      return Failure(extraction.error);
    }
    var x := extraction.value;
    var block := BlockRow(x);
    if block.Failure? {
      return Failure(block.error);
    }
    if block.value.Some? {
      records := records.(blocks := records.blocks + [block.value.value]);
    }
    var changes := ChangeRows(x);
    if changes.Failure? {
      return Failure(changes.error);
    }
    records := records.(changes := records.changes + Rows(x, ChangeFieldsOf(changes.value.changes)));
    records := records.(resources := records.resources + Rows(x, ResourceFieldsOf(changes.value.resources)));
    records := records.(tableItems := records.tableItems + Rows(x, TableItemFieldsOf(changes.value.tableItems)));
    records := records.(modules := records.modules + Rows(x, ModuleFieldsOf(changes.value.modules)));
    var events := EventRows(x);
    if events.Failure? {
      return Failure(events.error);
    }
    if events.value.Some? {
      records := records.(events := records.events + events.value.value);
    }
    var sigCount: Option<nat> := None;
    var signatures := SignatureRows(x);
    if signatures.Failure? {
      return Failure(signatures.error);
    }
    if signatures.value.Some? {
      sigCount := Some(|signatures.value.value|);
      records := records.(signatures := records.signatures + signatures.value.value);
    }
    var row := TransactionRow(x, sigCount);
    if row.Failure? {
      return Failure(row.error);
    }
    records := records.(transactions := records.transactions + [row.value]);
    assert records.blocks == Single(block.value) && records.transactions == [row.value];
    assert records.events == OrNone(events.value) && records.signatures == OrNone(signatures.value);
    assert records.changes == Rows(x, ChangeFieldsOf(changes.value.changes));
    assert records.modules == Rows(x, ModuleFieldsOf(changes.value.modules));
    assert records.tableItems == Rows(x, TableItemFieldsOf(changes.value.tableItems));
    assert records.resources == Rows(x, ResourceFieldsOf(changes.value.resources));
    return Success(records);
  }

  // What one transaction's rows promise

  /** Every row lies in its own table and carries the transaction's version and time. */
  predicate Filed(tx: Transaction, rows: seq<Row>, t: Table) {
    forall i :: 0 <= i < |rows| ==>
      TableOf(rows[i].fields) == t && rows[i].version == tx.version && Some(rows[i].unix) == tx.timestamp
  }

  /** What one table takes from a transaction, computed without the other tables. */
  function RowsFor(t: Table, tx: Transaction): Result<seq<Row>, RecordError> {
    var x :- Extract(tx);
    RowsOf(t, x)
  }

  function RowsOf(t: Table, x: Extraction): Result<seq<Row>, RecordError> {
    match t
    case TransactionsTable =>
      var signatures :- SignatureRows(x);
      var row :- TransactionRow(x, Count(signatures));
      Success([row])
    case BlocksTable =>
      var block :- BlockRow(x);
      Success(Single(block))
    case EventsTable =>
      var events :- EventRows(x);
      Success(OrNone(events))
    case SignaturesTable =>
      var signatures :- SignatureRows(x);
      Success(OrNone(signatures))
    case _ =>
      var changes :- ChangeRows(x);
      Success(match t
              case ChangesTable => Rows(x, ChangeFieldsOf(changes.changes))
              case ModulesTable => Rows(x, ModuleFieldsOf(changes.modules))
              case ResourcesTable => Rows(x, ResourceFieldsOf(changes.resources))
              case _ => Rows(x, TableItemFieldsOf(changes.tableItems)))
  }

  /** The simple form succeeds exactly when every table's rows do, and then holds them. */
  lemma {:induction false} ExtractRecordsExactly(tx: Transaction)
    ensures ExtractRecords(tx).Success? <==> forall t: Table :: RowsFor(t, tx).Success?
    ensures ExtractRecords(tx).Success? ==> forall t: Table :: RowsFor(t, tx) == Success(ExtractRecords(tx).value.At(t))
  {
    hide Extract, BlockRow, ChangeRows, EventRows, SignatureRows, TransactionRow, Rows;
    if forall t: Table :: RowsFor(t, tx).Success? {
      assert RowsFor(TransactionsTable, tx).Success? && RowsFor(ChangesTable, tx).Success?;
      assert RowsFor(BlocksTable, tx).Success? && RowsFor(EventsTable, tx).Success? && RowsFor(SignaturesTable, tx).Success?;
    }
  }

  lemma {:induction false} ExtractionTime(tx: Transaction)
    requires Extract(tx).Success?
    ensures Extract(tx).value.version == tx.version && tx.timestamp == Some(Extract(tx).value.unix)
    ensures Changes.AllWellTyped(Extract(tx).value.changes)
    ensures Extract(tx).value.data.BlockMetadataData? ==> tx.txType.BlockMetadata? && Extract(tx).value.blockHeight == tx.blockHeight
  {
    hide Changes.ExtractChanges, Changes.AllWellTyped;
  }

  lemma {:induction false} TransactionRowFiled(x: Extraction, sigCount: Option<nat>)
    requires TransactionRow(x, sigCount).Success?
    ensures
      var row := TransactionRow(x, sigCount).value;
      row.fields.TransactionFields? && row.version == x.version && row.unix == x.unix
  {
    hide EncodeTime, Sender, Changes.CalculateAggregate, NumSignatures, EventsOf;
  }

  /** A table's rows lie in it and carry the transaction's version and time; a transaction has one transactions row and
      at most one block row. */
  lemma {:induction false} RowsForAreFiled(t: Table, tx: Transaction)
    requires RowsFor(t, tx).Success?
    ensures Filed(tx, RowsFor(t, tx).value, t)
    ensures t.TransactionsTable? ==> |RowsFor(t, tx).value| == 1
    ensures t.BlocksTable? ==> |RowsFor(t, tx).value| <= 1
  {
    hide Extract, ChangeRows, TransactionRow, EncodeTime, EncodeAddress, EventFieldsOf, SignatureRoles.FromSignature,
         SignatureRoles.GetSignatures;
    ExtractionTime(tx);
    var x := Extract(tx).value;
    if t.TransactionsTable? {
      TransactionRowFiled(x, Count(SignatureRows(x).value));
    }
  }

  lemma {:induction false} RowsAreFiled(tx: Transaction)
    requires ExtractRecords(tx).Success?
    ensures forall t: Table :: Filed(tx, ExtractRecords(tx).value.At(t), t)
    ensures |ExtractRecords(tx).value.transactions| == 1
  {
    hide ExtractRecords, RowsFor, Filed;
    ExtractRecordsExactly(tx);
    assert RowsFor(TransactionsTable, tx) == Success(ExtractRecords(tx).value.At(TransactionsTable));
    forall t: Table ensures Filed(tx, ExtractRecords(tx).value.At(t), t) {
      assert RowsFor(t, tx) == Success(ExtractRecords(tx).value.At(t));
      RowsForAreFiled(t, tx);
    }
    RowsForAreFiled(TransactionsTable, tx);
  }

  /** The counts the row-count check reads off a transaction row are the numbers of rows in the other tables. */
  predicate CountsAgree(f: Fields, r: Records)
    requires f.TransactionFields?
  {
    && f.numChanges.total == |r.changes|
    && f.numChanges.writeModule + f.numChanges.deleteModule == |r.modules|
    && f.numChanges.writeTableItem + f.numChanges.deleteTableItem == |r.tableItems|
    && f.numChanges.writeResource + f.numChanges.deleteResource == |r.resources|
    && f.numEvents.GetOr(0) == |r.events|
    && f.numSignatures.GetOr(0) == |r.signatures|
  }

  lemma {:induction false} TransactionRowCounts(x: Extraction, sigCount: Option<nat>)
    requires TransactionRow(x, sigCount).Success? && Changes.AllWellTyped(x.changes)
    ensures
      var f := TransactionRow(x, sigCount).value.fields;
      && f.TransactionFields? && f.numChanges == Changes.Aggregate(x.changes)
      && f.numEvents == (if EventsOf(x).Some? then Some(|EventsOf(x).value|) else None)
      && NumSignatures(x, sigCount) == Success(f.numSignatures)
  {
    hide EncodeTime, Sender, Changes.Aggregate, Changes.AllWellTyped;
    Changes.NothingUnaccounted(x.changes);
  }

  lemma {:induction false} SignaturesOnlyForUsers(x: Extraction)
    requires SignatureRows(x).Success?
    ensures SignatureRows(x).value.Some? <==> x.data.UserData?
  {
    hide SignatureRoles.FromSignature, SignatureRoles.GetSignatures, EncodeTime;
  }

  lemma {:induction false} EventRowsCount(x: Extraction)
    requires EventRows(x).Success?
    ensures EventRows(x).value.Some? <==> EventsOf(x).Some?
    ensures EventRows(x).value.Some? ==> |EventRows(x).value.value| == |EventsOf(x).value|
  {
    hide EncodeTime, EventFieldsOf;
  }

  lemma {:induction false} CountsMatchRows(tx: Transaction)
    requires ExtractRecords(tx).Success?
    ensures
      var r := ExtractRecords(tx).value;
      r.transactions != [] && r.transactions[0].fields.TransactionFields? && CountsAgree(r.transactions[0].fields, r)
  {
    hide SignatureRows, EventRows, TransactionRow, Extract, BlockRow, Changes.ChangesOf, Changes.Aggregate, EncodeTime;
    var x := Extract(tx).value;
    TransactionRowCounts(x, Count(SignatureRows(x).value));
    SignaturesOnlyForUsers(x);
    EventRowsCount(x);
    Changes.AggregateCountsRows(x.changes);
  }

  /** The missing-signature-count error cannot occur when the count comes from `get_signatures`. */
  lemma {:induction false} SigCountNeverMissing(x: Extraction)
    requires SignatureRows(x).Success? && Changes.AllWellTyped(x.changes)
    ensures TransactionRow(x, Count(SignatureRows(x).value)) != Failure(MissingSigCount)
    ensures TransactionRow(x, Count(SignatureRows(x).value)).Failure? ==>
      !TransactionRow(x, Count(SignatureRows(x).value)).error.ChangeExtraction?
  {
    hide SignatureRows, Address.Fixed, EventsOf, Changes.CalculateAggregate, Changes.Aggregate, Changes.AllWellTyped;
    SignaturesOnlyForUsers(x);
    Changes.NothingUnaccounted(x.changes);
  }

  // Address columns

  /** `0x` and 64 hex digits: repairing it changes nothing. */
  predicate IsRepaired(a: string) {
    Address.Fixed(a) == Success(a)
  }

  /** The row's address column, if it has one, is in repaired form. */
  predicate AddressRepaired(f: Fields) {
    match f
    case TransactionFields(_, _, _, _, sender, _) => sender.Some? ==> IsRepaired(sender.value)
    case BlockFields(_, proposer) => IsRepaired(proposer)
    case ChangeFields(c) => IsRepaired(c.address)
    case ModuleFields(m) => IsRepaired(m.address)
    case ResourceFields(r) => IsRepaired(r.address)
    case TableItemFields(i) => IsRepaired(i.address)
    case EventFields(_, address, _) => IsRepaired(address)
    case SignatureFields(s) => IsRepaired(s.signer)
  }

  predicate AllRepaired(rows: seq<Row>) {
    forall i :: 0 <= i < |rows| ==> AddressRepaired(rows[i].fields)
  }

  lemma {:induction false} RepairedByEncoding(a: string)
    requires EncodeAddress(a).Success?
    ensures IsRepaired(EncodeAddress(a).value)
  {
    Address.FixedIsIdempotent(a);
  }

  lemma {:induction false} EventsRepaired(x: Extraction, events: seq<Event>, n: nat)
    requires n <= |events| && EventFieldsOf(x, events, n).Success?
    ensures forall i :: 0 <= i < n ==> AddressRepaired(EventFieldsOf(x, events, n).value[i])
  {
    hide EncodeAddress, IsRepaired;
    if n > 0 {
      EventsRepaired(x, events, n - 1);
      RepairedByEncoding(events[n - 1].key.value);
    }
  }

  lemma {:induction false} SubRowRepaired(s: Changes.SubRow, c: Changes.ChangeRow)
    requires Changes.Describes(s, c) && IsRepaired(c.address)
    ensures s.OfResource? ==> IsRepaired(s.resource.address)
    ensures s.OfModule? ==> IsRepaired(s.moduleRow.address)
    ensures s.OfTableItem? ==> IsRepaired(s.item.address)
  {
    hide IsRepaired;
  }

  lemma {:induction false} MergedRowsRepaired(rows: seq<Changes.SubRow>)
    requires forall i :: 0 <= i < |rows| ==>
      && (rows[i].OfResource? ==> IsRepaired(rows[i].resource.address))
      && (rows[i].OfModule? ==> IsRepaired(rows[i].moduleRow.address))
      && (rows[i].OfTableItem? ==> IsRepaired(rows[i].item.address))
    ensures forall i :: 0 <= i < |Changes.ResourcesIn(rows)| ==> IsRepaired(Changes.ResourcesIn(rows)[i].address)
    ensures forall i :: 0 <= i < |Changes.ModulesIn(rows)| ==> IsRepaired(Changes.ModulesIn(rows)[i].address)
    ensures forall i :: 0 <= i < |Changes.TableItemsIn(rows)| ==> IsRepaired(Changes.TableItemsIn(rows)[i].address)
  {
    hide IsRepaired;
    if rows != [] {
      MergedRowsRepaired(rows[..|rows| - 1]);
    }
  }

  lemma {:induction false} ChangesRepaired(cs: seq<Changes.IncompleteChange>)
    requires Changes.AllWellTyped(cs) && Changes.ChangesOf(cs).Success?
    ensures
      var r := Changes.ChangesOf(cs).value;
      && (forall i :: 0 <= i < |r.changes| ==> IsRepaired(r.changes[i].address))
      && (forall i :: 0 <= i < |r.resources| ==> IsRepaired(r.resources[i].address))
      && (forall i :: 0 <= i < |r.modules| ==> IsRepaired(r.modules[i].address))
      && (forall i :: 0 <= i < |r.tableItems| ==> IsRepaired(r.tableItems[i].address))
  {
    hide Changes.ChangesOf, Changes.Merge, Changes.ResourcesIn, Changes.ModulesIn, Changes.TableItemsIn, Changes.Describes,
         Changes.AllWellTyped, Address.Fixed, Changes.Bounded;
    var r := Changes.ChangesOf(cs).value;
    var merged := Changes.Merged(r);
    Changes.SubTablesPartitionChanges(cs);
    forall i | 0 <= i < |r.changes| ensures IsRepaired(r.changes[i].address) {
      Address.FixedIsIdempotent(cs[i].address);
    }
    forall i | 0 <= i < |merged|
      ensures merged[i].OfResource? ==> IsRepaired(merged[i].resource.address)
      ensures merged[i].OfModule? ==> IsRepaired(merged[i].moduleRow.address)
      ensures merged[i].OfTableItem? ==> IsRepaired(merged[i].item.address)
    {
      SubRowRepaired(merged[i], r.changes[i]);
    }
    MergedRowsRepaired(merged);
    Changes.MergeKeepsRows(r.resources, r.modules, r.tableItems);
  }

  lemma {:induction false} SignersRepaired(x: Extraction)
    requires SignatureRows(x).Success?
    ensures AllRepaired(OrNone(SignatureRows(x).value))
  {
    hide Address.Fixed, EncodeTime, SignatureRoles.FromSignature, SignatureRoles.GetSignatures;
    if SignatureRows(x).value.Some? {
      SignatureRoles.SignersAreRepaired(x.version, x.data.request.value.sender, x.data.request.value.signature.value);
    }
  }

  lemma {:induction false} BlockAndSenderRepaired(x: Extraction, sigCount: Option<nat>)
    ensures BlockRow(x).Success? ==> AllRepaired(Single(BlockRow(x).value))
    ensures TransactionRow(x, sigCount).Success? ==> AddressRepaired(TransactionRow(x, sigCount).value.fields)
  {
    hide EncodeAddress, IsRepaired, EncodeTime, Changes.CalculateAggregate, EventsOf, NumSignatures;
    if x.data.BlockMetadataData? && EncodeAddress(x.data.proposer).Success? {
      RepairedByEncoding(x.data.proposer);
    }
    if x.data.UserData? && x.data.request.Some? && EncodeAddress(x.data.request.value.sender).Success? {
      RepairedByEncoding(x.data.request.value.sender);
    }
  }

  /** Every address column of every table holds a repaired address. */
  lemma {:induction false} AddressColumnsAreRepaired(tx: Transaction)
    requires ExtractRecords(tx).Success?
    ensures forall t: Table :: AllRepaired(ExtractRecords(tx).value.At(t))
  {
    hide IsRepaired, SignatureRows, BlockRow, TransactionRow, Extract, EncodeTime, EventFieldsOf, Changes.ChangesOf;
    var x := Extract(tx).value;
    ChangesRepaired(x.changes);
    if EventsOf(x).Some? {
      EventsRepaired(x, EventsOf(x).value, |EventsOf(x).value|);
    }
    SignersRepaired(x);
    BlockAndSenderRepaired(x, Count(SignatureRows(x).value));
  }
}
