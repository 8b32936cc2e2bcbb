/** Which key and which signature every record and row of a transaction's signature carries, said of the message itself
    (reps/signatures.rs, tables/signatures.rs). */
module SignatureLaws {
  import opened Wrappers
  import opened Deferreds
  import opened Signatures
  import opened SignatureRoles
  import Address

  // One key's texts

  /** The text of bytes in the output: `0x` and two hex digits for each byte, which read as the bytes' number. */
  predicate IsHexOf(text: string, bytes: Bytes) {
    text == "0x" + Address.HexEncode(bytes)
  }

  predicate IsKey(key: PublicKey, kind: string, bytes: Bytes, index: Option<nat>) {
    key.kind == kind && IsHexOf(key.value, bytes) && key.index == index
  }

  predicate IsSig(sig: Option<SigValue>, kind: string, bytes: Bytes, index: Option<nat>) {
    sig.Some? && sig.value.kind == kind && IsHexOf(sig.value.value, bytes) && sig.value.index == index
  }

  /** The names of the key types and signature types the output knows, in the order of the messages' enumerations. */
  lemma {:induction false} KindNames()
    ensures [KeyKind(KeyEd25519), KeyKind(KeySecp256k1Ecdsa), KeyKind(KeySecp256r1Ecdsa), KeyKind(KeyKeyless),
             KeyKind(KeyFederatedKeyless), KeyKind(KeySlhDsa)]
         == [Success("ed25519"), Success("secp256k1_ecdsa"), Success("secp256r1_ecdsa"), Success("keyless"),
             Success("federated_keyless"), Success("slh_dsa_sha2_128s")]
    ensures [SigKind(SigEd25519), SigKind(SigSecp256k1Ecdsa), SigKind(SigWebauthn), SigKind(SigKeyless), SigKind(SigSlhDsa)]
         == [Success("ed25519"), Success("secp256k1_ecdsa"), Success("webauthn"), Success("keyless"), Success("slh_dsa_sha2_128s")]
    ensures forall t: AnyKeyType :: KeyKind(t).Success? <==> !t.KeyUnspecified?
    ensures forall t: AnySigType :: SigKind(t).Success? <==> !t.SigUnspecified?
  {
  }

  /** A single Ed25519 signature is one record: its own key bytes as the key and its own signature bytes as the signature. */
  lemma {:induction false} Ed25519Record(d: Ed25519Proto)
    ensures
      var r := FromEd25519(d);
      && IsKey(r.publicKey, "ed25519", d.publicKey, None) && IsSig(r.signature, "ed25519", d.signature, None)
      && r.threshold.None? && r.signer.Deferred?
      && r.isSender == Present(None) && r.isSecondary == Present(None) && r.isFeePayer == Present(None)
  {
  }

  predicate KeyConverts(key: AnyPublicKey) {
    key.keyType != KeyUnspecified
  }

  predicate SigConverts(sig: AnySignature) {
    sig.variant.Some? && sig.sigType != SigUnspecified
  }

  /** A single key signature flattens exactly when both its halves are there and of a known type, to one record of them. */
  lemma {:induction false} SingleKeyRecord(d: SingleKeyProto)
    ensures FromSingleKey(d).Success? <==>
      d.publicKey.Some? && KeyConverts(d.publicKey.value) && d.signature.Some? && SigConverts(d.signature.value)
    ensures FromSingleKey(d).Success? ==>
      var r := FromSingleKey(d).value;
      && IsKey(r.publicKey, KeyKind(d.publicKey.value.keyType).value, d.publicKey.value.publicKey, None)
      && IsSig(r.signature, SigKind(d.signature.value.sigType).value, d.signature.value.variant.value, None)
      && r.threshold.None?
  {
  }

  /** An account abstraction has no key; its record carries the signature's bytes. */
  lemma {:induction false} AbstractionRecord(bytes: Bytes)
    ensures
      var r := FromAbstraction(bytes);
      r.publicKey == PublicKey("Unspecified", "Abstraction", None) && IsSig(r.signature, "Abstraction", bytes, None) && r.threshold.None?
  {
  }

  // Several keys

  predicate NoneTwice(indices: seq<nat>) {
    forall i, j :: 0 <= i < j < |indices| ==> indices[i] != indices[j]
  }

  /** The record of key i of a multi-Ed25519 account: the key's bytes, the threshold, and the signature made with that key,
      if any. */
  predicate IsMultiEd25519Record(r: SubRecord, d: MultiEd25519Proto, i: nat)
    requires i < |d.publicKeys| && |d.signatures| == |d.publicKeyIndices|
  {
    && IsKey(r.publicKey, "ed25519", d.publicKeys[i], Some(i)) && r.threshold == Some(d.threshold)
    && (r.signature.Some? <==> i in d.publicKeyIndices)
    && forall j :: 0 <= j < |d.signatures| && d.publicKeyIndices[j] == i ==>
         IsSig(r.signature, "ed25519", d.signatures[j], Some(i))
  }

  lemma {:induction false} EdItem(d: MultiEd25519Proto, j: nat)
    requires j < |d.signatures| == |d.publicKeyIndices|
    ensures MultiEd25519Items(d)[j].Success?
    ensures
      var sig := MultiEd25519Items(d)[j].value;
      IsSig(Some(sig), "ed25519", d.signatures[j], Some(d.publicKeyIndices[j]))
  {
  }

  lemma {:induction false} SigAtFinds(sigs: seq<SigValue>, k: nat, j: nat)
    requires DistinctIndices(sigs) && j < |sigs| && sigs[j].index == Some(k)
    ensures SigAt(sigs, k) == Some(sigs[j])
  {
    if j > 0 {
      SigAtFinds(sigs[1..], k, j - 1);
    }
  }

  /** A multi-Ed25519 signature flattens exactly when every signature names its key and no key is named twice, to one record
      for each key in order. */
  lemma {:induction false} MultiEd25519Records(d: MultiEd25519Proto)
    ensures FromMultiEd25519(d).Success? <==> |d.signatures| == |d.publicKeyIndices| && NoneTwice(d.publicKeyIndices)
    ensures FromMultiEd25519(d).Success? ==>
      && |FromMultiEd25519(d).value| == |d.publicKeys|
      && forall i :: 0 <= i < |d.publicKeys| ==> IsMultiEd25519Record(FromMultiEd25519(d).value[i], d, i)
  {
    hide FromMultiEd25519, MultiEd25519Items, Joins;
    MultiEd25519Join(d);
    if |d.signatures| == |d.publicKeyIndices| {
      var items := MultiEd25519Items(d);
      forall j | 0 <= j < |items|
        ensures items[j].Success? && items[j].value.index == Some(d.publicKeyIndices[j])
      {
        EdItem(d, j);
      }
      assert Distinct(items) <==> NoneTwice(d.publicKeyIndices);
      if FromMultiEd25519(d).Success? {
        forall i | 0 <= i < |d.publicKeys| ensures IsMultiEd25519Record(FromMultiEd25519(d).value[i], d, i) {
          MultiEd25519RecordAt(d, i);
        }
      }
    }
  }

  lemma {:induction false} MultiEd25519RecordAt(d: MultiEd25519Proto, i: nat)
    requires FromMultiEd25519(d).Success? && |d.signatures| == |d.publicKeyIndices| && i < |d.publicKeys|
    ensures IsMultiEd25519Record(FromMultiEd25519(d).value[i], d, i)
  {
    hide MultiEd25519Items, HashText, Carried, InRange;
    MultiEd25519Join(d);
    var items := MultiEd25519Items(d);
    var sigs, r := Values(items), FromMultiEd25519(d).value[i];
    MultiEd25519Threshold(d, i);
    forall j | 0 <= j < |sigs|
      ensures sigs[j].index == Some(d.publicKeyIndices[j])
      ensures IsSig(Some(sigs[j]), "ed25519", d.signatures[j], Some(d.publicKeyIndices[j]))
    {
      EdItem(d, j);
    }
    assert r.signature == SigAt(sigs, i);
    forall j | 0 <= j < |sigs| && d.publicKeyIndices[j] == i
      ensures IsSig(r.signature, "ed25519", d.signatures[j], Some(i))
    {
      SigAtFinds(sigs, i, j);
    }
    if r.signature.Some? {
      assert r.signature.value in sigs && r.signature.value.index == Some(i);
      var j :| 0 <= j < |sigs| && sigs[j] == r.signature.value;
      assert d.publicKeyIndices[j] == i;
    }
    assert IsKey(r.publicKey, "ed25519", d.publicKeys[i], Some(i)) by {
      HashIsHex(d.publicKeys[i]);
    }
  }

  lemma {:induction false} HashIsHex(bytes: Bytes)
    ensures IsHexOf(HashText(bytes), bytes)
  {
  }

  lemma {:induction false} MultiEd25519Threshold(d: MultiEd25519Proto, i: nat)
    requires FromMultiEd25519(d).Success? && i < |d.publicKeys|
    ensures FromMultiEd25519(d).value[i].threshold == Some(d.threshold)
  {
    hide Index, HashText;
  }

  predicate IndexedConverts(s: IndexedSignature) {
    s.signature.Some? && SigConverts(s.signature.value)
  }

  predicate NoIndexTwice(sigs: seq<IndexedSignature>) {
    forall i, j :: 0 <= i < j < |sigs| ==> sigs[i].index != sigs[j].index
  }

  /** sig is signature j of the message. */
  predicate SigIs(d: MultiKeyProto, j: nat, sig: Option<SigValue>)
    requires j < |d.signatures| && IndexedConverts(d.signatures[j])
  {
    var s := d.signatures[j].signature.value;
    IsSig(sig, SigKind(s.sigType).value, s.variant.value, Some(d.signatures[j].index))
  }

  /** The record of key i of a multi-key account. */
  predicate IsMultiKeyRecord(r: SubRecord, d: MultiKeyProto, i: nat)
    requires i < |d.publicKeys| && forall j :: 0 <= j < |d.signatures| ==> IndexedConverts(d.signatures[j])
  {
    && KeyConverts(d.publicKeys[i]) && IsKey(r.publicKey, KeyKind(d.publicKeys[i].keyType).value, d.publicKeys[i].publicKey, None)
    && r.threshold == Some(d.signaturesRequired)
    && (r.signature.Some? <==> exists j :: 0 <= j < |d.signatures| && d.signatures[j].index == i)
    && forall j :: 0 <= j < |d.signatures| && d.signatures[j].index == i ==> SigIs(d, j, r.signature)
  }

  lemma {:induction false} KeyItem(d: MultiKeyProto, j: nat)
    requires j < |d.signatures|
    ensures MultiKeyItems(d)[j].Success? <==> IndexedConverts(d.signatures[j])
    ensures IndexedConverts(d.signatures[j]) ==>
      var s := d.signatures[j].signature.value;
      IsSig(Some(MultiKeyItems(d)[j].value), SigKind(s.sigType).value, s.variant.value, Some(d.signatures[j].index))
  {
  }

  /** A multi-key signature flattens exactly when all its keys and signatures are there and of known types and no key is named
      twice, to one record for each key in order. */
  lemma {:induction false} MultiKeyRecordsExactly(d: MultiKeyProto)
    ensures FromMultiKey(d).Success? <==>
      && (forall i :: 0 <= i < |d.publicKeys| ==> KeyConverts(d.publicKeys[i]))
      && (forall j :: 0 <= j < |d.signatures| ==> IndexedConverts(d.signatures[j])) && NoIndexTwice(d.signatures)
    ensures FromMultiKey(d).Success? ==>
      && |FromMultiKey(d).value| == |d.publicKeys|
      && forall i :: 0 <= i < |d.publicKeys| ==> IsMultiKeyRecord(FromMultiKey(d).value[i], d, i)
  {
    hide FromMultiKey, MultiKeyItems, Joins, IndexedConverts;
    MultiKeyJoin(d);
    var items := MultiKeyItems(d);
    forall j | 0 <= j < |items|
      ensures items[j].Success? <==> IndexedConverts(d.signatures[j])
      ensures items[j].Success? ==> items[j].value.index == Some(d.signatures[j].index)
    {
      KeyItem(d, j);
    }
    forall i | 0 <= i < |d.publicKeys| ensures ConvertKey(d.publicKeys[i]).Success? <==> KeyConverts(d.publicKeys[i]) {
    }
    assert Distinct(items) <==> (forall j :: 0 <= j < |d.signatures| ==> IndexedConverts(d.signatures[j])) && NoIndexTwice(d.signatures);
    if FromMultiKey(d).Success? {
      forall i | 0 <= i < |d.publicKeys| ensures IsMultiKeyRecord(FromMultiKey(d).value[i], d, i) {
        MultiKeyRecordAt(d, i);
      }
    }
  }

  lemma {:induction false} MultiKeyRecordAt(d: MultiKeyProto, i: nat)
    requires FromMultiKey(d).Success? && i < |d.publicKeys|
    requires forall j :: 0 <= j < |d.signatures| ==> IndexedConverts(d.signatures[j])
    ensures IsMultiKeyRecord(FromMultiKey(d).value[i], d, i)
  {
    hide MultiKeyItems, HashText, Carried, InRange, IndexedConverts, SigKind, FromMultiKey;
    MultiKeyJoin(d);
    var items := MultiKeyItems(d);
    var sigs, r := Values(items), FromMultiKey(d).value[i];
    MultiKeyThreshold(d, i);
    forall j | 0 <= j < |sigs|
      ensures sigs[j].index == Some(d.signatures[j].index)
      ensures SigIs(d, j, Some(sigs[j]))
    {
      KeyItem(d, j);
    }
    assert r.signature == SigAt(sigs, i);
    forall j | 0 <= j < |sigs| && d.signatures[j].index == i ensures SigIs(d, j, r.signature) {
      SigAtFinds(sigs, i, j);
    }
    if r.signature.Some? {
      assert r.signature.value in sigs && r.signature.value.index == Some(i);
      var j :| 0 <= j < |sigs| && sigs[j] == r.signature.value;
      assert d.signatures[j].index == i;
    }
    assert ConvertKey(d.publicKeys[i]) == Success(r.publicKey);
    HashIsHex(d.publicKeys[i].publicKey);
  }

  lemma {:induction false} MultiKeyThreshold(d: MultiKeyProto, i: nat)
    requires FromMultiKey(d).Success? && i < |d.publicKeys|
    ensures FromMultiKey(d).value[i].threshold == Some(d.signaturesRequired)
  {
    hide Index, MultiKeyItems, AllIndexed;
    MultiKeyThresholds(d, Index(MultiKeyItems(d), KeyBuilder).value, |d.publicKeys|);
  }

  lemma {:induction false} MultiKeyThresholds(d: MultiKeyProto, sigs: map<nat, SigValue>, n: nat)
    requires n <= |d.publicKeys| && MultiKeyRecords(d, sigs, n).Success?
    ensures forall i :: 0 <= i < n ==> MultiKeyRecords(d, sigs, n).value[i].threshold == Some(d.signaturesRequired)
  {
    hide ConvertKey;
    if n > 0 {
      MultiKeyThresholds(d, sigs, n - 1);
    }
  }

  // Accounts and whole signatures

  /** An account's records are those of its data, whose kind must be the one its type says. */
  predicate AccountFlattens(v: AccountSignature) {
    match v.data
    case None => false
    case Some(AcctEd25519Data(_)) => v.accountType == AcctEd25519
    case Some(AcctMultiEd25519Data(d)) =>
      v.accountType == AcctMultiEd25519 && |d.signatures| == |d.publicKeyIndices| && NoneTwice(d.publicKeyIndices)
    case Some(AcctSingleKeyData(d)) =>
      v.accountType == AcctSingleKey
      && d.publicKey.Some? && KeyConverts(d.publicKey.value) && d.signature.Some? && SigConverts(d.signature.value)
    case Some(AcctMultiKeyData(d)) =>
      v.accountType == AcctMultiKey && NoIndexTwice(d.signatures)
      && (forall i :: 0 <= i < |d.publicKeys| ==> KeyConverts(d.publicKeys[i]))
      && (forall j :: 0 <= j < |d.signatures| ==> IndexedConverts(d.signatures[j]))
    case Some(AcctAbstractionData(_)) => v.accountType == AcctAbstraction
  }

  lemma {:induction false} AccountFlattensExactly(v: AccountSignature)
    ensures FromAccount(v).Success? <==> AccountFlattens(v)
    ensures AccountFlattens(v) ==>
      match v.data.value
      case AcctEd25519Data(d) => FromAccount(v) == Success([FromEd25519(d)])
      case AcctMultiEd25519Data(d) => FromAccount(v) == FromMultiEd25519(d)
      case AcctSingleKeyData(d) => FromAccount(v) == Success([FromSingleKey(d).value])
      case AcctMultiKeyData(d) => FromAccount(v) == FromMultiKey(d)
      case AcctAbstractionData(d) => FromAccount(v) == Success([FromAbstraction(d)])
  {
    hide FromMultiEd25519, FromMultiKey, FromSingleKey, NoneTwice, NoIndexTwice, IndexedConverts, KeyConverts, SigConverts;
    match v.data
    case Some(AcctMultiEd25519Data(d)) => MultiEd25519Records(d);
    case Some(AcctSingleKeyData(d)) => SingleKeyRecord(d);
    case Some(AcctMultiKeyData(d)) => MultiKeyRecordsExactly(d);
    case _ =>
  }

  predicate AllAccountsFlatten(accounts: seq<AccountSignature>, n: nat)
    requires n <= |accounts|
  {
    forall i :: 0 <= i < n ==> AccountFlattens(accounts[i])
  }

  /** A signature's data are of the kind its type says, its required accounts are there, and its accounts flatten; secondary
      signers without an address are not looked at. */
  predicate Flattens(v: Signature) {
    match v.data
    case None => false
    case Some(Ed25519Data(_)) => v.sigType == Ed25519
    case Some(MultiEd25519Data(d)) =>
      v.sigType == MultiEd25519 && |d.signatures| == |d.publicKeyIndices| && NoneTwice(d.publicKeyIndices)
    case Some(MultiAgentData(d)) =>
      v.sigType == MultiAgent && d.sender.Some? && AccountFlattens(d.sender.value)
      && AllAccountsFlatten(d.secondarySigners, Zipped(d.secondarySigners, d.secondaryAddresses))
    case Some(FeePayerData(d)) =>
      v.sigType == FeePayer && d.sender.Some? && AccountFlattens(d.sender.value)
      && d.feePayerSigner.Some? && AccountFlattens(d.feePayerSigner.value)
      && AllAccountsFlatten(d.secondarySigners, Zipped(d.secondarySigners, d.secondaryAddresses))
    case Some(SingleSenderData(account)) => v.sigType == SingleSender && account.Some? && AccountFlattens(account.value)
  }

  lemma {:induction false} SecondariesFlattenExactly(build: SigType, signers: seq<AccountSignature>, addresses: seq<string>, n: nat)
    requires n <= |signers| && n <= |addresses|
    ensures Secondaries(build, signers, addresses, n).Success? <==> AllAccountsFlatten(signers, n)
  {
    hide FromAccount, AccountFlattens;
    if n > 0 {
      SecondariesFlattenExactly(build, signers, addresses, n - 1);
      AccountFlattensExactly(signers[n - 1]);
    }
  }

  lemma {:induction false} FlattensExactly(v: Signature)
    ensures FromSignature(v).Success? <==> Flattens(v)
  {
    hide FromAccount, AccountFlattens, FromMultiEd25519, NoneTwice, AllAccountsFlatten, Secondaries;
    match v.data
    case Some(MultiEd25519Data(d)) => MultiEd25519Records(d);
    case Some(MultiAgentData(d)) =>
      SecondariesFlattenExactly(MultiAgent, d.secondarySigners, d.secondaryAddresses, Zipped(d.secondarySigners, d.secondaryAddresses));
      if d.sender.Some? {
        AccountFlattensExactly(d.sender.value);
      }
    case Some(FeePayerData(d)) =>
      SecondariesFlattenExactly(FeePayer, d.secondarySigners, d.secondaryAddresses, Zipped(d.secondarySigners, d.secondaryAddresses));
      if d.sender.Some? {
        AccountFlattensExactly(d.sender.value);
      }
      if d.feePayerSigner.Some? {
        AccountFlattensExactly(d.feePayerSigner.value);
      }
    case Some(SingleSenderData(account)) =>
      if account.Some? {
        AccountFlattensExactly(account.value);
      }
    case _ =>
  }

  // Why a signature does not flatten

  /** A single key signature fails for the first half that is missing, then for signature bytes of no known variant, then for
      an unspecified type. */
  lemma {:induction false} SingleKeyErrors(d: SingleKeyProto)
    requires FromSingleKey(d).Failure?
    ensures FromSingleKey(d).error ==
      if d.publicKey.None? then SingleKeySignatureMissingPubKey
      else if d.signature.None? then SingleKeySignatureMissingSignature
      else if d.signature.value.variant.None? then UnsupportedSignatureVariant
      else if d.publicKey.value.keyType == KeyUnspecified then PubKeyUnspecified
      else SigValueUnspecified
  {
  }

  /** Indexing stops at the first item that does not convert, or repeats the index of one before it. */
  lemma {:induction false} IndexBlames(items: seq<Converted>, builder: Builder) returns (k: nat)
    requires AllIndexed(items) && Index(items, builder).Failure?
    ensures k < |items| && Distinct(items[..k])
    ensures items[k].Failure? ==> Index(items, builder) == Failure(items[k].error)
    ensures items[k].Success? ==>
      && Index(items, builder) == Failure(Duplicate(builder, items[k].value.index.value))
      && exists j :: 0 <= j < k && items[j].Success? && items[j].value.index == items[k].value.index
  {
    var n := |items| - 1;
    var before := items[..n];
    if Index(before, builder).Failure? {
      k := IndexBlames(before, builder);
      assert items[..k] == before[..k];
    } else {
      k := n;
      IndexExactly(before, builder);
      if items[n].Success? {
        IndexHolds(before, builder);
        HoldsIndex(Index(before, builder).value, before, items[n].value.index.value);
        var j :| 0 <= j < n && before[j].Success? && before[j].value.index == items[n].value.index;
        assert items[j] == before[j];
      }
    }
  }

  /** Index k of the list is the first that occurs before it. */
  predicate FirstRepeat(indices: seq<nat>, k: nat) {
    k < |indices| && NoneTwice(indices[..k]) && indices[k] in indices[..k]
  }

  /** A multi-Ed25519 signature fails with the three lengths when the indices do not match the signatures, and otherwise with
      the first key named twice. */
  lemma {:induction false} MultiEd25519Errors(d: MultiEd25519Proto)
    requires FromMultiEd25519(d).Failure?
    ensures |d.signatures| != |d.publicKeyIndices| ==>
      FromMultiEd25519(d).error == MultiEd25519LengthMismatch(|d.publicKeys|, |d.signatures|, |d.publicKeyIndices|)
    ensures |d.signatures| == |d.publicKeyIndices| ==>
      exists k: nat :: FirstRepeat(d.publicKeyIndices, k)
        && FromMultiEd25519(d).error == MultiEd25519MultiplePubkeyIndexMatch(d.publicKeyIndices[k])
  {
    hide Index, AllIndexed, HashText, MultiEd25519Items;
    if |d.signatures| == |d.publicKeyIndices| {
      var items := MultiEd25519Items(d);
      forall j | 0 <= j < |items| ensures items[j].Success? && items[j].value.index == Some(d.publicKeyIndices[j]) {
        EdItem(d, j);
      }
      var k := RepeatBlamed(items, EdBuilder, d.publicKeyIndices);
      assert FirstRepeat(d.publicKeyIndices, k);
    }
  }

  lemma {:induction false} RepeatBlamed(items: seq<Converted>, builder: Builder, indices: seq<nat>) returns (k: nat)
    requires AllIndexed(items) && |items| == |indices| && Index(items, builder).Failure?
    requires forall j :: 0 <= j < |items| ==> items[j].Success? && items[j].value.index == Some(indices[j])
    ensures FirstRepeat(indices, k) && Index(items, builder) == Failure(Duplicate(builder, indices[k]))
  {
    hide Index, AllIndexed;
    k := IndexBlames(items, builder);
    forall i, j | 0 <= i < j < k ensures indices[i] != indices[j] {
      assert items[..k][i].value.index != items[..k][j].value.index;
    }
    var j :| 0 <= j < k && items[j].value.index == items[k].value.index;
    assert indices[..k][j] == indices[k];
  }

  /** Why signature k of a multi-key account stops it: it is missing, of no known variant, of an unspecified type, or made with
      a key that a signature before it names. */
  predicate SignatureBlamed(d: MultiKeyProto, k: nat, e: SignatureError)
    requires k < |d.signatures|
  {
    var s := d.signatures[k];
    if s.signature.None? then e == IndexedSigMissingSigData
    else if s.signature.value.variant.None? then e == UnsupportedSignatureVariant
    else if s.signature.value.sigType == SigUnspecified then e == SigValueUnspecified
    else e == MultiKeyMultipleSignatureIndexMatch(s.index) && exists j :: 0 <= j < k && d.signatures[j].index == s.index
  }

  /** A multi-key signature fails for its first such signature, and otherwise for an unspecified key. */
  lemma {:induction false} MultiKeyErrors(d: MultiKeyProto)
    requires FromMultiKey(d).Failure?
    ensures (forall j :: 0 <= j < |d.signatures| ==> IndexedConverts(d.signatures[j])) && NoIndexTwice(d.signatures) ==>
      FromMultiKey(d).error == PubKeyUnspecified
    ensures (exists j :: 0 <= j < |d.signatures| && !IndexedConverts(d.signatures[j])) || !NoIndexTwice(d.signatures) ==>
      exists k: nat | k < |d.signatures| :: SignatureBlamed(d, k, FromMultiKey(d).error)
        && (forall j :: 0 <= j < k ==> IndexedConverts(d.signatures[j])) && NoIndexTwice(d.signatures[..k])
  {
    hide MultiKeyItems, Index;
    var items := MultiKeyItems(d);
    forall j | 0 <= j < |items|
      ensures items[j].Success? <==> IndexedConverts(d.signatures[j])
      ensures items[j].Success? ==> items[j].value.index == Some(d.signatures[j].index)
    {
      KeyItem(d, j);
    }
    if Index(items, KeyBuilder).Failure? {
      var k := IndexBlames(items, KeyBuilder);
      ItemBlamed(d, k);
      forall j | 0 <= j < k ensures IndexedConverts(d.signatures[j]) {
        assert items[..k][j] == items[j];
      }
      forall i, j | 0 <= i < j < k ensures d.signatures[i].index != d.signatures[j].index {
        assert items[..k][i].value.index != items[..k][j].value.index;
      }
      assert SignatureBlamed(d, k, FromMultiKey(d).error);
    } else {
      IndexExactly(items, KeyBuilder);
      KeyBlamed(d, Index(items, KeyBuilder).value, |d.publicKeys|);
    }
  }

  lemma {:induction false} ItemBlamed(d: MultiKeyProto, k: nat)
    requires k < |d.signatures|
    ensures MultiKeyItems(d)[k].Failure? ==> SignatureBlamed(d, k, MultiKeyItems(d)[k].error)
  {
  }

  lemma {:induction false} KeyBlamed(d: MultiKeyProto, sigs: map<nat, SigValue>, n: nat)
    requires n <= |d.publicKeys| && MultiKeyRecords(d, sigs, n).Failure?
    ensures MultiKeyRecords(d, sigs, n).error == PubKeyUnspecified
  {
    if n > 0 && MultiKeyRecords(d, sigs, n - 1).Failure? {
      KeyBlamed(d, sigs, n - 1);
    }
  }

  /** An account's signature fails as unspecified when its type is, or when its data are of another kind; as missing without
      data; and otherwise as its data do. */
  lemma {:induction false} AccountErrors(v: AccountSignature)
    requires FromAccount(v).Failure?
    ensures v.accountType == AcctUnspecified ==> FromAccount(v).error == UnspecifiedAccountSignature
    ensures v.accountType != AcctUnspecified && v.data.None? ==> FromAccount(v).error == MissingAccountSignatureData
    ensures v.accountType != AcctUnspecified && v.data.Some? ==>
      match v.data.value
      case AcctEd25519Data(_) => FromAccount(v).error == UnspecifiedAccountSignature
      case AcctMultiEd25519Data(d) =>
        FromAccount(v) == if v.accountType == AcctMultiEd25519 then FromMultiEd25519(d) else Failure(UnspecifiedAccountSignature)
      case AcctSingleKeyData(d) =>
        FromAccount(v).error == (if v.accountType == AcctSingleKey then FromSingleKey(d).error else UnspecifiedAccountSignature)
      case AcctMultiKeyData(d) =>
        FromAccount(v) == if v.accountType == AcctMultiKey then FromMultiKey(d) else Failure(UnspecifiedAccountSignature)
      case AcctAbstractionData(_) => FromAccount(v).error == UnspecifiedAccountSignature
  {
    hide FromMultiEd25519, FromMultiKey, FromSingleKey;
  }

  predicate OfItsType(t: SigType, data: SigData) {
    || (t == Ed25519 && data.Ed25519Data?)
    || (t == MultiEd25519 && data.MultiEd25519Data?)
    || (t == MultiAgent && data.MultiAgentData?)
    || (t == FeePayer && data.FeePayerData?)
    || (t == SingleSender && data.SingleSenderData?)
  }

  /** A required account fails as the account does, or as missing. */
  predicate FailsAs(r: SignatureRoles.Records, account: Option<AccountSignature>, missing: SignatureError) {
    r == if account.None? then Failure(missing) else FromAccount(account.value)
  }

  predicate FailsWith(r: SignatureRoles.Records, data: SigData) {
    match data
    case Ed25519Data(_) => false
    case MultiEd25519Data(d) => r == FromMultiEd25519(d)
    case MultiAgentData(d) =>
      AllAccountsFlatten(d.secondarySigners, Zipped(d.secondarySigners, d.secondaryAddresses)) ==>
        FailsAs(r, d.sender, MultiAgentMissingSender)
    case FeePayerData(d) =>
      if d.sender.None? || !AccountFlattens(d.sender.value) then FailsAs(r, d.sender, FeePayerMissingSender)
      else (d.feePayerSigner.None? || !AccountFlattens(d.feePayerSigner.value)) ==>
        FailsAs(r, d.feePayerSigner, FeePayerMissingFeePayer)
    case SingleSenderData(account) => FailsAs(r, account, MissingSingleSender)
  }

  /** A whole signature fails as unspecified or missing likewise, and for a required account that is not there: the multi-agent
      sender after the secondary signers, the fee payer's sender first and its fee payer after the sender. */
  lemma {:induction false} SignatureErrors(v: Signature)
    requires FromSignature(v).Failure?
    ensures v.sigType == Unspecified ==> FromSignature(v).error == UnspecifiedSignatureType
    ensures v.sigType != Unspecified && v.data.None? ==> FromSignature(v).error == MissingSignatureData
    ensures v.sigType != Unspecified && v.data.Some? && !OfItsType(v.sigType, v.data.value) ==>
      FromSignature(v).error == UnspecifiedSignatureType
    ensures v.data.Some? && OfItsType(v.sigType, v.data.value) ==> FailsWith(FromSignature(v), v.data.value)
  {
    hide FromAccount, AccountFlattens, FromMultiEd25519, AllAccountsFlatten, Secondaries;
    match v.data
    case Some(MultiAgentData(d)) =>
      SecondariesFlattenExactly(MultiAgent, d.secondarySigners, d.secondaryAddresses, Zipped(d.secondarySigners, d.secondaryAddresses));
    case Some(FeePayerData(d)) =>
      if d.sender.Some? {
        AccountFlattensExactly(d.sender.value);
      }
      if d.feePayerSigner.Some? {
        AccountFlattensExactly(d.feePayerSigner.value);
      }
    case _ =>
  }

  // Rows

  /** What a record says apart from the part its account plays. */
  datatype Content = Content(publicKey: PublicKey, signature: Option<SigValue>, threshold: Option<nat>)

  function ContentOf(r: SubRecord): Content {
    Content(r.publicKey, r.signature, r.threshold)
  }

  function Contents(rs: seq<SubRecord>): (cs: seq<Content>)
    ensures |cs| == |rs| && forall i :: 0 <= i < |rs| ==> cs[i] == ContentOf(rs[i])
  {
    seq(|rs|, i requires 0 <= i < |rs| => ContentOf(rs[i]))
  }

  function RowContent(row: SignatureRow): Content {
    Content(row.publicKey, row.signature, row.threshold)
  }

  /** The contents of the contributing accounts' own records, one account after the other. */
  function AccountContents(cs: seq<Contribution>): seq<Content>
    requires AllFlatten(cs)
  {
    if cs == [] then [] else AccountContents(cs[..|cs| - 1]) + Contents(FromAccount(cs[|cs| - 1].account).value)
  }

  lemma {:induction false} ContentsAppend(a: seq<SubRecord>, b: seq<SubRecord>)
    ensures Contents(a + b) == Contents(a) + Contents(b)
  {
    hide ContentOf;
  }

  /** A role leaves the contents of a record alone. */
  lemma {:induction false} RecordsKeepContents(c: Contribution)
    requires FromAccount(c.account).Success?
    ensures Contents(RecordsOf(c)) == Contents(FromAccount(c.account).value)
  {
    hide FromAccount;
    var records := FromAccount(c.account).value;
    forall i | 0 <= i < |records| ensures ContentOf(RecordsOf(c)[i]) == ContentOf(records[i]) {
    }
  }

  lemma {:induction false} FlattenKeepsContents(cs: seq<Contribution>)
    requires AllFlatten(cs)
    ensures Contents(Flatten(cs)) == AccountContents(cs)
  {
    hide FromAccount, Flatten, Contents, RecordsOf;
    if cs == [] {
      NothingFlattens();
    } else {
      FlattenLast(cs);
      FlattenKeepsContents(cs[..|cs| - 1]);
      RecordsKeepContents(cs[|cs| - 1]);
      ContentsAppend(Flatten(cs[..|cs| - 1]), RecordsOf(cs[|cs| - 1]));
    }
  }

  lemma {:induction false} NothingFlattens()
    ensures Contents(Flatten([])) == []
  {
  }

  /** Every row keeps the key, the signature and the threshold of its record, and is of the transaction's version. */
  lemma {:induction false} RowsKeepContents(version: nat, sender: string, v: Signature)
    requires GetSignatures(version, sender, v).Success?
    ensures
      var rows := GetSignatures(version, sender, v).value;
      && FromSignature(v).Success? && |rows| == |FromSignature(v).value|
      && forall i :: 0 <= i < |rows| ==> rows[i].version == version && RowContent(rows[i]) == ContentOf(FromSignature(v).value[i])
  {
    hide FromSignature, Address.Fixed;
    var subs := FromSignature(v).value;
    ResolveEach(version, Address.Fixed(sender).value, subs, |subs|);
    forall i | 0 <= i < |subs|
      ensures GetSignatures(version, sender, v).value[i].version == version
      ensures RowContent(GetSignatures(version, sender, v).value[i]) == ContentOf(subs[i])
    {
      assert Resolve(version, Address.Fixed(sender).value, subs[i]) == Success(GetSignatures(version, sender, v).value[i]);
    }
  }

  /** The rows of a composite signature carry their accounts' keys and signatures, one account after the other. */
  lemma {:induction false} RowsCarryAccounts(version: nat, sender: string, v: Signature)
    requires IsComposite(v.sigType) && GetSignatures(version, sender, v).Success?
    ensures AllFlatten(Contributions(v)) && |GetSignatures(version, sender, v).value| == |AccountContents(Contributions(v))|
    ensures forall i :: 0 <= i < |AccountContents(Contributions(v))| ==>
      RowContent(GetSignatures(version, sender, v).value[i]) == AccountContents(Contributions(v))[i]
  {
    hide FromSignature, GetSignatures, Contributions, AllFlatten, Flatten, AccountContents;
    RowsKeepContents(version, sender, v);
    FromSignatureFlattens(v);
    FlattenKeepsContents(Contributions(v));
    assert forall i :: 0 <= i < |FromSignature(v).value| ==> Contents(FromSignature(v).value)[i] == ContentOf(FromSignature(v).value[i]);
  }

  /** When the signature flattens and the sender repairs, only a signer's address can stop the rows. */
  lemma {:induction false} RowsSucceedExactly(version: nat, sender: string, v: Signature)
    ensures GetSignatures(version, sender, v).Success? <==>
      && Flattens(v) && Address.Fixed(sender).Success? && FromSignature(v).Success?
      && forall i :: 0 <= i < |FromSignature(v).value| && FromSignature(v).value[i].signer.Extract().Success? ==>
           Address.Fixed(FromSignature(v).value[i].signer.Extract().value).Success?
  {
    hide FromSignature, Address.Fixed, Flattens;
    FlattensExactly(v);
    if FromSignature(v).Success? && Address.Fixed(sender).Success? {
      var subs, signer := FromSignature(v).value, Address.Fixed(sender).value;
      FromSignatureUsable(v);
      ResolveEach(version, signer, subs, |subs|);
      ResolvesAll(version, signer, subs, |subs|);
    }
  }

  lemma {:induction false} ResolvesAll(version: nat, signer: string, subs: seq<SubRecord>, n: nat)
    requires n <= |subs|
    ensures ResolveAll(version, signer, subs, n).Success? <==> forall i :: 0 <= i < n ==> Resolve(version, signer, subs[i]).Success?
  {
    hide Resolve;
    if n > 0 {
      ResolvesAll(version, signer, subs, n - 1);
    }
  }

  // A fee payer transaction of Ed25519 accounts, row by row

  function EdAccount(d: Ed25519Proto): AccountSignature {
    AccountSignature(AcctEd25519, Some(AcctEd25519Data(d)))
  }

  /** The row of an Ed25519 account that plays a part in a fee payer transaction. */
  predicate IsPayerRow(row: SignatureRow, version: nat, d: Ed25519Proto, address: string, sender: bool, payer: bool) {
    && row.version == version && row.buildType == FeePayer && Address.Fixed(address) == Success(row.signer)
    && IsKey(row.publicKey, "ed25519", d.publicKey, None) && IsSig(row.signature, "ed25519", d.signature, None)
    && row.threshold.None? && row.isSender == Some(sender) && row.isFeePayer == Some(payer)
    && row.isSecondary == Some(!sender && !payer)
  }

  /** Every signer of the transaction is an Ed25519 account: the sender, the fee payer, and each secondary signer. */
  predicate AllEd25519(v: FeePayerProto, sender: Ed25519Proto, payer: Ed25519Proto, others: seq<Ed25519Proto>) {
    && v.sender == Some(EdAccount(sender)) && v.feePayerSigner == Some(EdAccount(payer))
    && |v.secondaryAddresses| == |v.secondarySigners| == |others|
    && forall i :: 0 <= i < |others| ==> v.secondarySigners[i] == EdAccount(others[i])
  }

  predicate AddressesRepair(sender: string, v: FeePayerProto) {
    && Address.Fixed(sender).Success? && Address.Fixed(v.feePayerAddress).Success?
    && forall i :: 0 <= i < |v.secondaryAddresses| ==> Address.Fixed(v.secondaryAddresses[i]).Success?
  }

  lemma {:induction false} EdRole(role: Role, d: Ed25519Proto)
    ensures FromRole(role, EdAccount(d)) == Success([Assign(role, FromEd25519(d))])
  {
    hide Assign, FromEd25519;
    assert FromAccount(EdAccount(d)) == Success([FromEd25519(d)]);
    assert AssignAll(role, [FromEd25519(d)]) == [Assign(role, FromEd25519(d))];
  }

  lemma {:induction false} EdRowResolves(version: nat, defaultSigner: string, role: Role, d: Ed25519Proto, address: string)
    requires RoleBuild(role).FeePayer? && Address.Fixed(address).Success?
    requires if role.PayerSender? then Address.Fixed(address) == Success(defaultSigner) else role.address == address
    ensures Resolve(version, defaultSigner, Assign(role, FromEd25519(d))).Success?
    ensures IsPayerRow(Resolve(version, defaultSigner, Assign(role, FromEd25519(d))).value, version, d, address,
                       role.PayerSender?, role.PayerFeePayer?)
  {
    hide Address.Fixed, Address.HexEncode;
  }

  lemma {:induction false} EdSecondaries(signers: seq<AccountSignature>, addresses: seq<string>, others: seq<Ed25519Proto>, n: nat)
    requires n <= |signers| == |addresses| == |others| && forall i :: 0 <= i < |others| ==> signers[i] == EdAccount(others[i])
    ensures Secondaries(FeePayer, signers, addresses, n).Success? && |Secondaries(FeePayer, signers, addresses, n).value| == n
    ensures forall i :: 0 <= i < n ==>
      Secondaries(FeePayer, signers, addresses, n).value[i] == Assign(PayerSecondary(addresses[i]), FromEd25519(others[i]))
  {
    hide FromRole, Assign, FromEd25519;
    if n > 0 {
      EdSecondaries(signers, addresses, others, n - 1);
      EdRole(PayerSecondary(addresses[n - 1]), others[n - 1]);
    }
  }

  /** The records before their rows: the sender's, the fee payer's, then each secondary signer's. */
  lemma {:induction false} FeePayerRecords(v: FeePayerProto, s: Ed25519Proto, p: Ed25519Proto, others: seq<Ed25519Proto>)
    requires AllEd25519(v, s, p, others)
    ensures
      var r := FromSignature(Signature(FeePayer, Some(FeePayerData(v))));
      && r.Success? && |r.value| == 2 + |others|
      && r.value[0] == Assign(PayerSender, FromEd25519(s))
      && r.value[1] == Assign(PayerFeePayer(v.feePayerAddress), FromEd25519(p))
      && forall i :: 0 <= i < |others| ==> r.value[2 + i] == Assign(PayerSecondary(v.secondaryAddresses[i]), FromEd25519(others[i]))
  {
    hide FromRole, Assign, FromEd25519;
    EdRole(PayerSender, s);
    EdRole(PayerFeePayer(v.feePayerAddress), p);
    EdSecondaries(v.secondarySigners, v.secondaryAddresses, others, |others|);
  }

  /** Its rows: the sender's under the transaction's sender, the fee payer's and each secondary signer's under their addresses,
      each with its own account's key and signature. */
  lemma {:induction false} FeePayerRows(version: nat, sender: string, v: FeePayerProto, s: Ed25519Proto, p: Ed25519Proto,
                                        others: seq<Ed25519Proto>)
    requires AllEd25519(v, s, p, others) && AddressesRepair(sender, v)
    ensures
      var r := GetSignatures(version, sender, Signature(FeePayer, Some(FeePayerData(v))));
      && r.Success? && |r.value| == 2 + |others|
      && IsPayerRow(r.value[0], version, s, sender, true, false)
      && IsPayerRow(r.value[1], version, p, v.feePayerAddress, false, true)
      && forall i :: 0 <= i < |others| ==>
           IsPayerRow(r.value[2 + i], version, others[i], v.secondaryAddresses[i], false, false)
  {
    hide Address.Fixed, Resolve, IsPayerRow, Assign, FromEd25519, FromSignature;
    var signer := Address.Fixed(sender).value;
    FeePayerRecords(v, s, p, others);
    var subs := FromSignature(Signature(FeePayer, Some(FeePayerData(v)))).value;
    EdRowResolves(version, signer, PayerSender, s, sender);
    EdRowResolves(version, signer, PayerFeePayer(v.feePayerAddress), p, v.feePayerAddress);
    forall i | 2 <= i < |subs|
      ensures Resolve(version, signer, subs[i]).Success?
      ensures IsPayerRow(Resolve(version, signer, subs[i]).value, version, others[i - 2], v.secondaryAddresses[i - 2], false, false)
    {
      EdRowResolves(version, signer, PayerSecondary(v.secondaryAddresses[i - 2]), others[i - 2], v.secondaryAddresses[i - 2]);
      assert subs[2 + (i - 2)] == Assign(PayerSecondary(v.secondaryAddresses[i - 2]), FromEd25519(others[i - 2]));
    }
    ResolvesAll(version, signer, subs, |subs|);
    ResolveEach(version, signer, subs, |subs|);
  }
}
