/** When the MERGE's keys tell rows apart, column by column, and signature rows in particular
    (daily_qc_airflow/daily_dedupe_mainnet.py). */
module KeyLaws {
  import opened Wrappers
  import Address
  import Deferreds
  import opened Signatures
  import opened SignatureRoles
  import opened SignatureLaws
  import opened Tables
  import opened RangeExtraction
  import opened Dedupe
  import opened Protocol
  import opened ProtocolLaws
  import RowLaws

  function ValueOf(sig: Option<SigValue>): Option<string> {
    if sig.Some? then Some(sig.value.value) else None
  }

  /** The columns each table is grouped by have equal values in the two rows. */
  predicate GroupedTogether(r: Row, s: Row) {
    match (r.fields, s.fields)
    case (TransactionFields(_, _, _, _, _, _), TransactionFields(_, _, _, _, _, _)) => r.version == s.version
    case (BlockFields(height, _), BlockFields(other, _)) => height == other
    case (ChangeFields(c), ChangeFields(d)) => c.index == d.index && r.version == s.version
    case (ModuleFields(c), ModuleFields(d)) => c.index == d.index && r.version == s.version
    case (ResourceFields(c), ResourceFields(d)) => c.index == d.index && r.version == s.version
    case (TableItemFields(c), TableItemFields(d)) => c.index == d.index && r.version == s.version
    case (EventFields(i, _, _), EventFields(j, _, _)) => i == j && r.version == s.version
    case (SignatureFields(a), SignatureFields(b)) =>
      && r.version == s.version && ValueOf(a.signature) == ValueOf(b.signature)
      && a.publicKey.value == b.publicKey.value && a.publicKey.index == b.publicKey.index
      && a.signer == b.signer && a.isSender == b.isSender && a.isFeePayer == b.isFeePayer
    case _ => false
  }

  /** Two rows of a table have one key exactly when the columns it is grouped by agree. */
  lemma {:induction false} SameKeyExactly(r: Row, s: Row)
    requires TableOf(r.fields) == TableOf(s.fields)
    ensures KeyOf(r) == KeyOf(s) <==> GroupedTogether(r, s)
  {
  }

  /** A day's window holds the rows whose `block_timestamp` lies in the day, and those of the next midnight. */
  lemma {:induction false} DayWindow(day: int, r: Row)
    ensures InWindow(Window(86400 * day, 86400 * (day + 1)), r) <==>
      EncodedSecond(r.unix) / 86400 == day || EncodedSecond(r.unix) == 86400 * (day + 1)
  {
    var second := EncodedSecond(r.unix);
    assert second == 86400 * (second / 86400) + second % 86400;
  }

  function SignatureTableRows(version: nat, unix: UnixTimestamp, rows: seq<SignatureRow>): (out: seq<Row>)
    ensures |out| == |rows| && forall i :: 0 <= i < |rows| ==> out[i] == Row(version, unix, SignatureFields(rows[i]))
  {
    seq(|rows|, i requires 0 <= i < |rows| => Row(version, unix, SignatureFields(rows[i])))
  }

  /** The rows of a multi-Ed25519 signature are told apart by their keys' positions. */
  lemma {:induction false} MultiEd25519RowsApart(version: nat, unix: UnixTimestamp, sender: string, d: MultiEd25519Proto)
    requires GetSignatures(version, sender, Signature(MultiEd25519, Some(MultiEd25519Data(d)))).Success?
    ensures KeysDistinct(SignatureTableRows(version, unix,
      GetSignatures(version, sender, Signature(MultiEd25519, Some(MultiEd25519Data(d)))).value))
  {
    hide KeyOf, GetSignatures, FromMultiEd25519, NoneTwice, GroupedTogether, IsSig;
    var signature := Signature(MultiEd25519, Some(MultiEd25519Data(d)));
    var rows := GetSignatures(version, sender, signature).value;
    RowsKeepContents(version, sender, signature);
    MultiEd25519Records(d);
    assert FromSignature(signature) == FromMultiEd25519(d);
    forall i | 0 <= i < |rows| ensures rows[i].publicKey.index == Some(i) {
      assert IsMultiEd25519Record(FromMultiEd25519(d).value[i], d, i);
      assert RowContent(rows[i]) == ContentOf(FromMultiEd25519(d).value[i]);
    }
    var table := SignatureTableRows(version, unix, rows);
    forall i, j | 0 <= i < j < |table| ensures KeyOf(table[i]) != KeyOf(table[j]) {
      ApartByPosition(table[i], table[j]);
    }
  }

  lemma {:induction false} ApartByPosition(r: Row, s: Row)
    requires r.fields.SignatureFields? && s.fields.SignatureFields?
    requires r.fields.signature.publicKey.index != s.fields.signature.publicKey.index
    ensures KeyOf(r) != KeyOf(s)
  {
    SameKeyExactly(r, s);
  }

  /** Two secondary signers of a fee payer transaction that the key cannot tell apart: one account, one key, one signature. */
  predicate SameSigner(a: Ed25519Proto, address: string, b: Ed25519Proto, other: string) {
    && Address.Fixed(address) == Address.Fixed(other)
    && Address.HexEncode(a.publicKey) == Address.HexEncode(b.publicKey)
    && Address.HexEncode(a.signature) == Address.HexEncode(b.signature)
  }

  predicate NoSignerTwice(v: FeePayerProto, others: seq<Ed25519Proto>)
    requires |v.secondaryAddresses| == |others|
  {
    forall i, j :: 0 <= i < j < |others| ==> !SameSigner(others[i], v.secondaryAddresses[i], others[j], v.secondaryAddresses[j])
  }

  lemma {:induction false} PrefixedHex(a: string, b: string)
    ensures "0x" + a == "0x" + b <==> a == b
  {
    assert ("0x" + a)[2..] == a && ("0x" + b)[2..] == b;
  }

  /** Rows of two parts of a fee payer transaction: the sender's, the fee payer's and the others' never share a key; two of the
      others share one exactly when they are one signer. */
  lemma {:induction false} PayerRowsApart(r: Row, s: Row, version: nat, a: Ed25519Proto, address: string, sender: bool, payer: bool,
                                          b: Ed25519Proto, other: string, sender': bool, payer': bool)
    requires r.fields.SignatureFields? && s.fields.SignatureFields? && r.version == s.version
    requires IsPayerRow(r.fields.signature, version, a, address, sender, payer)
    requires IsPayerRow(s.fields.signature, version, b, other, sender', payer')
    ensures KeyOf(r) == KeyOf(s) <==> sender == sender' && payer == payer' && SameSigner(a, address, b, other)
  {
    hide Address.Fixed, Address.HexEncode, KeyOf;
    SameKeyExactly(r, s);
    PrefixedHex(Address.HexEncode(a.publicKey), Address.HexEncode(b.publicKey));
    PrefixedHex(Address.HexEncode(a.signature), Address.HexEncode(b.signature));
  }

  /** The rows of a fee payer transaction of Ed25519 accounts have different keys exactly when no secondary signer is there
      twice; the sender's and the fee payer's row are always told apart, even when one account plays both parts. */
  lemma {:induction false} FeePayerRowsApartExactly(version: nat, unix: UnixTimestamp, sender: string, v: FeePayerProto, s: Ed25519Proto,
                                                    p: Ed25519Proto, others: seq<Ed25519Proto>)
    requires AllEd25519(v, s, p, others) && AddressesRepair(sender, v)
    ensures GetSignatures(version, sender, Signature(FeePayer, Some(FeePayerData(v)))).Success?
    ensures
      var table := SignatureTableRows(version, unix, GetSignatures(version, sender, Signature(FeePayer, Some(FeePayerData(v)))).value);
      && |table| == 2 + |others| && KeyOf(table[0]) != KeyOf(table[1])
      && (KeysDistinct(table) <==> NoSignerTwice(v, others))
  {
    hide Address.Fixed, Address.HexEncode, KeyOf, GetSignatures, IsPayerRow, SameSigner, AddressesRepair;
    FeePayerRows(version, sender, v, s, p, others);
    var table := SignatureTableRows(version, unix, GetSignatures(version, sender, Signature(FeePayer, Some(FeePayerData(v)))).value);
    PayerRowsApart(table[0], table[1], version, s, sender, true, false, p, v.feePayerAddress, false, true);
    forall j | 2 <= j < |table| ensures KeyOf(table[0]) != KeyOf(table[j]) && KeyOf(table[1]) != KeyOf(table[j]) {
      var b, other := others[j - 2], v.secondaryAddresses[j - 2];
      assert IsPayerRow(table[2 + (j - 2)].fields.signature, version, b, other, false, false);
      PayerRowsApart(table[0], table[j], version, s, sender, true, false, b, other, false, false);
      PayerRowsApart(table[1], table[j], version, p, v.feePayerAddress, false, true, b, other, false, false);
    }
    forall i, j | 0 <= i < j < |others|
      ensures KeyOf(table[2 + i]) == KeyOf(table[2 + j]) <==>
        SameSigner(others[i], v.secondaryAddresses[i], others[j], v.secondaryAddresses[j])
    {
      PayerRowsApart(table[2 + i], table[2 + j], version, others[i], v.secondaryAddresses[i], false, false,
                     others[j], v.secondaryAddresses[j], false, false);
    }
    if KeysDistinct(table) {
      forall i, j | 0 <= i < j < |others|
        ensures !SameSigner(others[i], v.secondaryAddresses[i], others[j], v.secondaryAddresses[j])
      {
        assert KeyOf(table[2 + i]) != KeyOf(table[2 + j]);
      }
    }
    if NoSignerTwice(v, others) {
      forall i, j | 0 <= i < j < |table| ensures KeyOf(table[i]) != KeyOf(table[j]) {
        if i >= 2 {
          var k, l := i - 2, j - 2;
          assert !SameSigner(others[k], v.secondaryAddresses[k], others[l], v.secondaryAddresses[l]);
          assert KeyOf(table[2 + k]) != KeyOf(table[2 + l]);
        }
      }
    }
  }

  // Ledgers whose signature rows all survive

  /** The signatures rows of a user transaction, one for each row of its signature. */
  lemma {:induction false} SignaturesOf(tx: Transaction)
    requires Given(SignaturesTable, tx) != []
    ensures tx.data.Some? && tx.data.value.UserData? && tx.data.value.request.Some? && tx.data.value.request.value.signature.Some?
    ensures tx.timestamp.Some?
    ensures
      var request := tx.data.value.request.value;
      var rows := GetSignatures(tx.version, request.sender, request.signature.value);
      rows.Success? && Given(SignaturesTable, tx) == SignatureTableRows(tx.version, tx.timestamp.value, rows.value)
  {
    hide Extract, GetSignatures, FromSignature, EncodeTime;
    RowLaws.ConvertsExactly(tx);
  }

  /** A signature whose rows always have different keys: one Ed25519 key, a multi-Ed25519 account, or a fee payer transaction
      of Ed25519 accounts with no secondary signer there twice. */
  ghost predicate RowsApart(v: Signature) {
    match v.data
    case Some(Ed25519Data(_)) => v.sigType == Ed25519
    case Some(MultiEd25519Data(_)) => v.sigType == MultiEd25519
    case Some(FeePayerData(d)) =>
      v.sigType == FeePayer && exists s, p, others :: AllEd25519(d, s, p, others) && NoSignerTwice(d, others)
    case _ => false
  }

  lemma {:induction false} GivenRowsApart(tx: Transaction)
    requires tx.data.Some? && tx.data.value.UserData? && tx.data.value.request.Some? && tx.data.value.request.value.signature.Some?
      ==> RowsApart(tx.data.value.request.value.signature.value)
    ensures KeysDistinct(Given(SignaturesTable, tx))
  {
    hide Given, KeyOf, GetSignatures, Address.Fixed, SameSigner, AddressesRepair;
    if Given(SignaturesTable, tx) != [] {
      SignaturesOf(tx);
      var sender, v := tx.data.value.request.value.sender, tx.data.value.request.value.signature.value;
      match v.data
      case Some(Ed25519Data(d)) =>
        RowsKeepContents(tx.version, sender, v);
        assert |FromSignature(v).value| == 1;
      case Some(MultiEd25519Data(d)) => MultiEd25519RowsApart(tx.version, tx.timestamp.value, sender, d);
      case Some(FeePayerData(d)) =>
        var s, p, others :| AllEd25519(d, s, p, others) && NoSignerTwice(d, others);
        AddressesRepaired(tx.version, sender, d, s, p, others);
        FeePayerRowsApartExactly(tx.version, tx.timestamp.value, sender, d, s, p, others);
    }
  }

  lemma {:induction false} AddressesRepaired(version: nat, sender: string, v: FeePayerProto, s: Ed25519Proto, p: Ed25519Proto,
                                             others: seq<Ed25519Proto>)
    requires AllEd25519(v, s, p, others)
    requires GetSignatures(version, sender, Signature(FeePayer, Some(FeePayerData(v)))).Success?
    ensures AddressesRepair(sender, v)
  {
    hide Address.Fixed, FromSignature, GetSignatures, Flattens;
    var signature := Signature(FeePayer, Some(FeePayerData(v)));
    SignatureLaws.RowsSucceedExactly(version, sender, signature);
    FeePayerRecords(v, s, p, others);
    var subs := FromSignature(signature).value;
    assert subs[1].signer == Deferreds.Present(v.feePayerAddress);
    forall i | 0 <= i < |v.secondaryAddresses| ensures Address.Fixed(v.secondaryAddresses[i]).Success? {
      assert subs[2 + i].signer == Deferreds.Present(v.secondaryAddresses[i]);
    }
  }

  /** On a ledger of such transactions the MERGEs keep every signatures row of their days: the expected rows' keys are
      distinct, whatever was sent. */
  lemma {:induction false} SignatureRowsSurvive(chain: Chain, sent: seq<Message>)
    requires IsChain(chain)
    requires forall v: nat ::
      var data := chain(v).data;
      data.Some? && data.value.UserData? && data.value.request.Some? && data.value.request.value.signature.Some? ==>
        RowsApart(data.value.request.value.signature.value)
    ensures KeysDistinct(ExpectedRows(chain, sent, SignaturesTable))
  {
    hide Given, KeysDistinct, RowsApart, ExpectedRows, IsChain;
    forall v: nat ensures KeysDistinct(Given(SignaturesTable, chain(v))) {
      GivenRowsApart(chain(v));
    }
    KeysAreDistinct(chain, sent, SignaturesTable);
  }
}
