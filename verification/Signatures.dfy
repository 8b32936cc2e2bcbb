/** Flattening of transaction signatures into one record per public key (reps/signatures.rs, tables/signatures.rs). */
module Signatures {
  import opened Wrappers
  import opened Deferreds
  import Address

  // Protobuf input. Key and signature bytes are kept as bytes.

  type Bytes = seq<Address.Byte>

  datatype AnyKeyType =
    | KeyUnspecified | KeyEd25519 | KeySecp256k1Ecdsa | KeySecp256r1Ecdsa | KeyKeyless | KeyFederatedKeyless | KeySlhDsa

  datatype AnySigType = SigUnspecified | SigEd25519 | SigSecp256k1Ecdsa | SigWebauthn | SigKeyless | SigSlhDsa

  datatype AnyPublicKey = AnyPublicKey(keyType: AnyKeyType, publicKey: Bytes)
  datatype AnySignature = AnySignature(sigType: AnySigType, variant: Option<Bytes>)
  datatype IndexedSignature = IndexedSignature(index: nat, signature: Option<AnySignature>)

  datatype Ed25519Proto = Ed25519Proto(publicKey: Bytes, signature: Bytes)
  datatype MultiEd25519Proto =
    MultiEd25519Proto(publicKeys: seq<Bytes>, signatures: seq<Bytes>, publicKeyIndices: seq<nat>, threshold: nat)
  datatype MultiKeyProto =
    MultiKeyProto(publicKeys: seq<AnyPublicKey>, signatures: seq<IndexedSignature>, signaturesRequired: nat)
  datatype SingleKeyProto = SingleKeyProto(publicKey: Option<AnyPublicKey>, signature: Option<AnySignature>)

  datatype AccountSigType = AcctUnspecified | AcctEd25519 | AcctMultiEd25519 | AcctSingleKey | AcctMultiKey | AcctAbstraction

  datatype AccountSigData =
    | AcctEd25519Data(ed: Ed25519Proto)
    | AcctMultiEd25519Data(multiEd: MultiEd25519Proto)
    | AcctSingleKeyData(singleKey: SingleKeyProto)
    | AcctMultiKeyData(multiKey: MultiKeyProto)
    | AcctAbstractionData(abstraction: Bytes)

  datatype AccountSignature = AccountSignature(accountType: AccountSigType, data: Option<AccountSigData>)

  datatype MultiAgentProto =
    MultiAgentProto(sender: Option<AccountSignature>, secondaryAddresses: seq<string>, secondarySigners: seq<AccountSignature>)
  datatype FeePayerProto =
    FeePayerProto(sender: Option<AccountSignature>, secondaryAddresses: seq<string>, secondarySigners: seq<AccountSignature>,
                  feePayerAddress: string, feePayerSigner: Option<AccountSignature>)

  datatype SigType = Unspecified | Ed25519 | MultiEd25519 | MultiAgent | FeePayer | SingleSender

  datatype SigData =
    | Ed25519Data(ed: Ed25519Proto)
    | MultiEd25519Data(multiEd: MultiEd25519Proto)
    | MultiAgentData(multiAgent: MultiAgentProto)
    | FeePayerData(feePayer: FeePayerProto)
    | SingleSenderData(singleSender: Option<AccountSignature>)

  datatype Signature = Signature(sigType: SigType, data: Option<SigData>)

  // Output

  datatype PublicKey = PublicKey(kind: string, value: string, index: Option<nat>)
  datatype SigValue = SigValue(kind: string, value: string, index: Option<nat>)

  datatype SubRecord = SubRecord(
    buildType: Deferred<SigType>,
    publicKey: PublicKey,
    signature: Option<SigValue>,
    threshold: Option<nat>,
    signer: Deferred<string>,
    isSecondary: Deferred<Option<bool>>,
    isFeePayer: Deferred<Option<bool>>,
    isSender: Deferred<Option<bool>>)

  datatype SignatureError =
    | MissingSignatureData
    | MissingAccountSignatureData
    | MultiEd25519LengthMismatch(keys: nat, sigs: nat, indices: nat)
    | MultiEd25519MultiplePubkeyIndexMatch(index: nat)
    | MultiKeyMultipleSignatureIndexMatch(index: nat)
    | MissingSingleSender
    | UnspecifiedAccountSignature
    | SingleKeySignatureMissingPubKey
    | SingleKeySignatureMissingSignature
    | UnspecifiedSignatureType
    | FeePayerMissingSender
    | FeePayerMissingFeePayer
    | MultiAgentMissingSender
    | PubKeyUnspecified
    | SigValueUnspecified
    | IndexedSigMissingSigData
    | UnsupportedSignatureVariant

  function HashText(bytes: Bytes): string {
    "0x" + Address.HexEncode(bytes)
  }

  function KeyKind(t: AnyKeyType): Result<string, SignatureError> {
    match t
    case KeyEd25519 => Success("ed25519")
    case KeySecp256k1Ecdsa => Success("secp256k1_ecdsa")
    case KeySecp256r1Ecdsa => Success("secp256r1_ecdsa")
    case KeyKeyless => Success("keyless")
    case KeyFederatedKeyless => Success("federated_keyless")
    case KeySlhDsa => Success("slh_dsa_sha2_128s")
    case KeyUnspecified => Failure(PubKeyUnspecified)
  }

  function SigKind(t: AnySigType): Result<string, SignatureError> {
    match t
    case SigEd25519 => Success("ed25519")
    case SigSecp256k1Ecdsa => Success("secp256k1_ecdsa")
    case SigWebauthn => Success("webauthn")
    case SigKeyless => Success("keyless")
    case SigSlhDsa => Success("slh_dsa_sha2_128s")
    case SigUnspecified => Failure(SigValueUnspecified)
  }

  function ConvertKey(key: AnyPublicKey): Result<PublicKey, SignatureError> {
    var kind :- KeyKind(key.keyType);
    Success(PublicKey(kind, HashText(key.publicKey), None))
  }

  function ConvertSig(sig: AnySignature, index: Option<nat>): Result<SigValue, SignatureError> {
    if sig.variant.None? then Failure(UnsupportedSignatureVariant)
    else
      var kind :- SigKind(sig.sigType);
      Success(SigValue(kind, HashText(sig.variant.value), index))
  }

  function ConvertIndexed(sig: IndexedSignature): Result<SigValue, SignatureError> {
    if sig.signature.None? then Failure(IndexedSigMissingSigData)
    else ConvertSig(sig.signature.value, Some(sig.index))
  }

  // Joining public keys with indexed signatures

  /** Which builder is joining; it only decides the error a repeated index raises. */
  datatype Builder = EdBuilder | KeyBuilder

  function Duplicate(builder: Builder, index: nat): SignatureError {
    match builder
    case EdBuilder => MultiEd25519MultiplePubkeyIndexMatch(index)
    case KeyBuilder => MultiKeyMultipleSignatureIndexMatch(index)
  }

  type Converted = Result<SigValue, SignatureError>

  /** Every converted signature of the list carries its key index. */
  predicate AllIndexed(items: seq<Converted>) {
    forall i :: 0 <= i < |items| && items[i].Success? ==> items[i].value.index.Some?
  }

  /** Indexing left to right: the first failed conversion or repeated index is the error. */
  function Index(items: seq<Converted>, builder: Builder): Result<map<nat, SigValue>, SignatureError>
    requires AllIndexed(items)
  {
    if items == [] then Success(map[])
    else
      var sigs :- Index(items[..|items| - 1], builder);
      var sig :- items[|items| - 1];
      if sig.index.value in sigs then Failure(Duplicate(builder, sig.index.value)) else Success(sigs[sig.index.value := sig])
  }

  predicate Distinct(items: seq<Converted>) {
    && (forall i :: 0 <= i < |items| ==> items[i].Success?)
    && (forall i, j :: 0 <= i < j < |items| ==> items[i].value.index != items[j].value.index)
  }

  function Values(items: seq<Converted>): (r: seq<SigValue>)
    requires forall i :: 0 <= i < |items| ==> items[i].Success?
    ensures |r| == |items|
  {
    seq(|items|, i requires 0 <= i < |items| => items[i].value)
  }

  /** What indexing found under k, or nothing. */
  function Lookup(sigs: map<nat, SigValue>, k: nat): Option<SigValue> {
    if k in sigs then Some(sigs[k]) else None
  }

  /** The first signature of the list with key index k. */
  function SigAt(sigs: seq<SigValue>, k: nat): (r: Option<SigValue>)
    ensures r.Some? ==> r.value in sigs && r.value.index == Some(k)
    ensures r.None? ==> forall i :: 0 <= i < |sigs| ==> sigs[i].index != Some(k)
  {
    if sigs == [] then None
    else if sigs[0].index == Some(k) then Some(sigs[0])
    else SigAt(sigs[1..], k)
  }

  /** sigs holds exactly the items, each under its own index. */
  ghost predicate Holds(sigs: map<nat, SigValue>, items: seq<Converted>) {
    && (forall j :: 0 <= j < |items| ==> items[j].Success? && Lookup(sigs, items[j].value.index.GetOr(0)) == Some(items[j].value))
    && (forall k :: k in sigs ==> exists j :: 0 <= j < |items| && items[j] == Success(sigs[k]) && sigs[k].index == Some(k))
  }

  lemma {:induction false} IndexHolds(items: seq<Converted>, builder: Builder)
    requires AllIndexed(items) && Index(items, builder).Success?
    ensures Holds(Index(items, builder).value, items)
  {
    if items != [] {
      var n := |items| - 1;
      var before := items[..n];
      IndexHolds(before, builder);
      var old_, sigs := Index(before, builder).value, Index(items, builder).value;
      assert forall j :: 0 <= j < n ==> items[j] == before[j];
      forall k | k in sigs
        ensures exists j :: 0 <= j < |items| && items[j] == Success(sigs[k]) && sigs[k].index == Some(k)
      {
        if k in old_ {
          var j :| 0 <= j < n && before[j] == Success(old_[k]) && old_[k].index == Some(k);
          assert items[j] == Success(sigs[k]);
        } else {
          assert items[n] == Success(sigs[k]);
        }
      }
    }
  }

  lemma {:induction false} HoldsIndex(sigs: map<nat, SigValue>, items: seq<Converted>, k: nat)
    requires AllIndexed(items) && Holds(sigs, items)
    ensures k in sigs <==> exists j :: 0 <= j < |items| && items[j].Success? && items[j].value.index == Some(k)
  {
    if k in sigs {
      var j :| 0 <= j < |items| && items[j] == Success(sigs[k]) && sigs[k].index == Some(k);
      assert items[j].value.index == Some(k);
    }
  }

  /** Indexing succeeds exactly when every signature converts and no index repeats. */
  lemma {:induction false} IndexExactly(items: seq<Converted>, builder: Builder)
    requires AllIndexed(items)
    ensures Index(items, builder).Success? <==> Distinct(items)
  {
    hide Holds;
    if items != [] {
      var n := |items| - 1;
      var before := items[..n];
      IndexExactly(before, builder);
      assert forall j :: 0 <= j < n ==> items[j] == before[j];
      if Index(before, builder).Success? && items[n].Success? {
        IndexHolds(before, builder);
        var sigs, k := Index(before, builder).value, items[n].value.index.value;
        HoldsIndex(sigs, before, k);
      }
    }
  }

  /** The map lookup is the direct search through the list. */
  lemma {:induction false} LookupIsSigAt(items: seq<Converted>, builder: Builder, k: nat)
    requires AllIndexed(items) && Index(items, builder).Success?
    ensures Distinct(items) && Lookup(Index(items, builder).value, k) == SigAt(Values(items), k)
  {
    IndexExactly(items, builder);
    IndexHolds(items, builder);
    var sigs := Index(items, builder).value;
    assert forall j :: 0 <= j < |items| ==> Values(items)[j] == items[j].value;
    if k in sigs {
      var j :| 0 <= j < |items| && items[j] == Success(sigs[k]) && sigs[k].index == Some(k);
      assert Values(items)[j].index == Some(k);
    }
  }

  lemma {:induction false} IndexFailureStays(items: seq<Converted>, i: nat, builder: Builder)
    requires i <= |items| && AllIndexed(items)
    ensures Index(items[..i], builder).Failure? ==> Index(items, builder) == Index(items[..i], builder)
    decreases |items| - i
  {
    if i < |items| {
      IndexFailureStays(items, i + 1, builder);
      assert items[..i + 1][..i] == items[..i];
    } else {
      assert items[..i] == items;
    }
  }

  /** The insertion loop of both multi-key builders. */
  method IndexSignatures(items: seq<Converted>, builder: Builder)
    returns (r: Result<map<nat, SigValue>, SignatureError>)
    requires AllIndexed(items)
    ensures r == Index(items, builder)
  {
    var sigs: map<nat, SigValue> := map[];
    for i := 0 to |items|
      invariant Index(items[..i], builder) == Success(sigs)
    {
      assert items[..i + 1][..i] == items[..i];
      IndexFailureStays(items, i + 1, builder);
      if items[i].Failure? {
        return Failure(items[i].error);
      }
      var index := items[i].value.index.value;
      if index in sigs {
        return Failure(Duplicate(builder, index));
      }
      sigs := sigs[index := items[i].value];
    }
    assert items[..|items|] == items;
    return Success(sigs);
  }

  // Builders

  const NoRole: Deferred<Option<bool>> := Present(None)

  function Account(build: Deferred<SigType>, key: PublicKey, sig: Option<SigValue>, threshold: Option<nat>): SubRecord {
    SubRecord(build, key, sig, threshold, Deferred, NoRole, NoRole, NoRole)
  }

  function FromEd25519(v: Ed25519Proto): SubRecord {
    Account(DeferredFallback(Ed25519), PublicKey("ed25519", HashText(v.publicKey), None),
            Some(SigValue("ed25519", HashText(v.signature), None)), None)
  }

  function MultiEd25519Items(v: MultiEd25519Proto): (items: seq<Converted>)
    requires |v.signatures| == |v.publicKeyIndices|
    ensures |items| == |v.signatures| && AllIndexed(items)
  {
    seq(|v.signatures|, i requires 0 <= i < |v.signatures| =>
      Success(SigValue("ed25519", HashText(v.signatures[i]), Some(v.publicKeyIndices[i]))))
  }

  function MultiEd25519Record(v: MultiEd25519Proto, i: nat, sig: Option<SigValue>): SubRecord
    requires i < |v.publicKeys|
  {
    Account(DeferredFallback(MultiEd25519), PublicKey("ed25519", HashText(v.publicKeys[i]), Some(i)), sig, Some(v.threshold))
  }

  function FromMultiEd25519(v: MultiEd25519Proto): (r: Result<seq<SubRecord>, SignatureError>)
    ensures r.Success? ==> |r.value| == |v.publicKeys|
  {
    if |v.signatures| != |v.publicKeyIndices|
    then Failure(MultiEd25519LengthMismatch(|v.publicKeys|, |v.signatures|, |v.publicKeyIndices|))
    else
      var sigs :- Index(MultiEd25519Items(v), EdBuilder);
      Success(seq(|v.publicKeys|, i requires 0 <= i < |v.publicKeys| => MultiEd25519Record(v, i, Lookup(sigs, i))))
  }

  function MultiKeyItems(v: MultiKeyProto): (items: seq<Converted>)
    ensures |items| == |v.signatures| && AllIndexed(items)
  {
    seq(|v.signatures|, i requires 0 <= i < |v.signatures| => ConvertIndexed(v.signatures[i]))
  }

  function MultiKeyRecord(v: MultiKeyProto, key: PublicKey, sig: Option<SigValue>): SubRecord {
    Account(Deferred, key, sig, Some(v.signaturesRequired))
  }

  /** The records of the first n keys; the first key that does not convert is the error. */
  function MultiKeyRecords(v: MultiKeyProto, sigs: map<nat, SigValue>, n: nat): (r: Result<seq<SubRecord>, SignatureError>)
    requires n <= |v.publicKeys|
    ensures r.Success? ==> |r.value| == n
  {
    if n == 0 then Success([])
    else
      var before :- MultiKeyRecords(v, sigs, n - 1);
      var key :- ConvertKey(v.publicKeys[n - 1]);
      Success(before + [MultiKeyRecord(v, key, Lookup(sigs, n - 1))])
  }

  function FromMultiKey(v: MultiKeyProto): (r: Result<seq<SubRecord>, SignatureError>)
    ensures r.Success? ==> |r.value| == |v.publicKeys|
  {
    var sigs :- Index(MultiKeyItems(v), KeyBuilder);
    MultiKeyRecords(v, sigs, |v.publicKeys|)
  }

  /** What is left of sigs once the keys below i have taken theirs. */
  ghost function Left(sigs: map<nat, SigValue>, i: nat): map<nat, SigValue> {
    map k | k in sigs && k >= i :: sigs[k]
  }

  /** `from_multied25519` as written: insert into a map, then remove one entry per key. */
  method BuildMultiEd25519(v: MultiEd25519Proto) returns (r: Result<seq<SubRecord>, SignatureError>)
    ensures r == FromMultiEd25519(v)
  {
    hide Index, AllIndexed, HashText;
    if |v.signatures| != |v.publicKeyIndices| {
      return Failure(MultiEd25519LengthMismatch(|v.publicKeys|, |v.signatures|, |v.publicKeyIndices|));
    }
    var indexed := IndexSignatures(MultiEd25519Items(v), EdBuilder);
    if indexed.Failure? {
      return Failure(indexed.error);
    }
    var left: map<nat, SigValue> := indexed.value;
    var records: seq<SubRecord> := [];
    for i := 0 to |v.publicKeys|
      invariant |records| == i
      invariant left == Left(indexed.value, i)
      invariant forall j :: 0 <= j < i ==> records[j] == MultiEd25519Record(v, j, Lookup(indexed.value, j))
    {
      records := records + [MultiEd25519Record(v, i, Lookup(left, i))];
      left := left - {i};
    }
    assert FromMultiEd25519(v).Success? && records == FromMultiEd25519(v).value;
    return Success(records);
  }

  /** `from_multikeysignature` as written. */
  method BuildMultiKey(v: MultiKeyProto) returns (r: Result<seq<SubRecord>, SignatureError>)
    ensures r == FromMultiKey(v)
  {
    hide Index, AllIndexed, ConvertIndexed, ConvertKey;
    var indexed := IndexSignatures(MultiKeyItems(v), KeyBuilder);
    if indexed.Failure? {
      return Failure(indexed.error);
    }
    var left: map<nat, SigValue> := indexed.value;
    var records: seq<SubRecord> := [];
    for i := 0 to |v.publicKeys|
      invariant left == Left(indexed.value, i)
      invariant MultiKeyRecords(v, indexed.value, i) == Success(records)
    {
      MultiKeyFailureStays(v, indexed.value, i + 1);
      var key := ConvertKey(v.publicKeys[i]);
      if key.Failure? {
        return Failure(key.error);
      }
      records := records + [MultiKeyRecord(v, key.value, Lookup(left, i))];
      left := left - {i};
    }
    return Success(records);
  }

  lemma {:induction false} MultiKeyFailureStays(v: MultiKeyProto, sigs: map<nat, SigValue>, i: nat)
    requires i <= |v.publicKeys|
    ensures MultiKeyRecords(v, sigs, i).Failure? ==>
      MultiKeyRecords(v, sigs, |v.publicKeys|) == MultiKeyRecords(v, sigs, i)
    decreases |v.publicKeys| - i
  {
    if i < |v.publicKeys| {
      MultiKeyFailureStays(v, sigs, i + 1);
    }
  }

  lemma {:induction false} MultiKeyRecordsExactly(v: MultiKeyProto, sigs: map<nat, SigValue>, n: nat)
    requires n <= |v.publicKeys|
    ensures MultiKeyRecords(v, sigs, n).Success? <==> forall i :: 0 <= i < n ==> ConvertKey(v.publicKeys[i]).Success?
    ensures MultiKeyRecords(v, sigs, n).Success? ==> forall i :: 0 <= i < n ==>
      && Success(MultiKeyRecords(v, sigs, n).value[i].publicKey) == ConvertKey(v.publicKeys[i])
      && MultiKeyRecords(v, sigs, n).value[i].signature == Lookup(sigs, i)
  {
    if n > 0 {
      MultiKeyRecordsExactly(v, sigs, n - 1);
    }
  }

  // What the joins promise

  function AsSeq(o: Option<SigValue>): seq<SigValue> {
    match o
    case Some(v) => [v]
    case None => []
  }

  /** The signatures the records carry, in record order. */
  function Carried(records: seq<SubRecord>): seq<SigValue> {
    if records == [] then [] else Carried(records[..|records| - 1]) + AsSeq(records[|records| - 1].signature)
  }

  /** The signatures whose key index is below n, in input order. */
  function InRange(sigs: seq<SigValue>, n: nat): seq<SigValue> {
    if sigs == [] then []
    else (if sigs[0].index.Some? && sigs[0].index.value < n then [sigs[0]] else []) + InRange(sigs[1..], n)
  }

  predicate DistinctIndices(sigs: seq<SigValue>) {
    && (forall i :: 0 <= i < |sigs| ==> sigs[i].index.Some?)
    && (forall i, j :: 0 <= i < j < |sigs| ==> sigs[i].index != sigs[j].index)
  }

  lemma {:induction false} DistinctTail(sigs: seq<SigValue>)
    requires DistinctIndices(sigs) && sigs != []
    ensures DistinctIndices(sigs[1..]) && SigAt(sigs[1..], sigs[0].index.value).None?
  {
  }

  lemma {:induction false} InRangeStep(sigs: seq<SigValue>, n: nat)
    requires DistinctIndices(sigs)
    ensures multiset(InRange(sigs, n + 1)) == multiset(InRange(sigs, n)) + multiset(AsSeq(SigAt(sigs, n)))
  {
    if sigs != [] {
      DistinctTail(sigs);
      InRangeStep(sigs[1..], n);
      InRangeHead(sigs, n);
      InRangeHead(sigs, n + 1);
    }
  }

  lemma {:induction false} InRangeHead(sigs: seq<SigValue>, n: nat)
    requires sigs != [] && sigs[0].index.Some?
    ensures multiset(InRange(sigs, n))
         == (if sigs[0].index.value < n then multiset{sigs[0]} else multiset{}) + multiset(InRange(sigs[1..], n))
  {
  }

  /** Record i carries the signature with index i, so together they carry the in-range signatures. */
  lemma {:induction false} CarriedArePermutation(records: seq<SubRecord>, sigs: seq<SigValue>)
    requires DistinctIndices(sigs)
    requires forall i :: 0 <= i < |records| ==> records[i].signature == SigAt(sigs, i)
    ensures multiset(Carried(records)) == multiset(InRange(sigs, |records|))
  {
    if records == [] {
      InRangeNone(sigs);
    } else {
      CarriedArePermutation(records[..|records| - 1], sigs);
      InRangeStep(sigs, |records| - 1);
    }
  }

  lemma {:induction false} InRangeNone(sigs: seq<SigValue>)
    ensures InRange(sigs, 0) == []
  {
    if sigs != [] {
      InRangeNone(sigs[1..]);
    }
  }

  lemma {:induction false} InRangeAll(sigs: seq<SigValue>, n: nat)
    requires forall i :: 0 <= i < |sigs| ==> sigs[i].index.Some? && sigs[i].index.value < n
    ensures InRange(sigs, n) == sigs
  {
    if sigs != [] {
      InRangeAll(sigs[1..], n);
      assert sigs == [sigs[0]] + sigs[1..];
    }
  }

  /** The promise of a multi-key join: one record per key in order, each with its own signature, none emitted twice. */
  ghost predicate Joins(records: seq<SubRecord>, sigs: seq<SigValue>, n: nat) {
    && |records| == n
    && (forall i :: 0 <= i < n ==> records[i].signature == SigAt(sigs, i))
    && multiset(Carried(records)) == multiset(InRange(sigs, n))
    && ((forall i :: 0 <= i < |sigs| ==> sigs[i].index.GetOr(n) < n) ==> multiset(Carried(records)) == multiset(sigs))
  }

  lemma {:induction false} ItemsJoin(items: seq<Converted>, builder: Builder, records: seq<SubRecord>)
    requires AllIndexed(items) && Index(items, builder).Success?
    requires forall i :: 0 <= i < |records| ==> records[i].signature == Lookup(Index(items, builder).value, i)
    ensures Distinct(items) && Joins(records, Values(items), |records|)
  {
    IndexExactly(items, builder);
    var sigs := Values(items);
    assert forall i :: 0 <= i < |sigs| ==> sigs[i] == items[i].value;
    forall i | 0 <= i < |records| ensures records[i].signature == SigAt(sigs, i) {
      LookupIsSigAt(items, builder, i);
    }
    CarriedArePermutation(records, sigs);
    if forall i :: 0 <= i < |sigs| ==> sigs[i].index.GetOr(|records|) < |records| {
      InRangeAll(sigs, |records|);
    }
  }

  /** A multi-Ed25519 signature flattens exactly when its lengths match and no key index repeats. */
  lemma {:induction false} MultiEd25519Join(v: MultiEd25519Proto)
    ensures FromMultiEd25519(v).Success? <==>
      |v.signatures| == |v.publicKeyIndices| && Distinct(MultiEd25519Items(v))
    ensures FromMultiEd25519(v).Success? ==>
      && Joins(FromMultiEd25519(v).value, Values(MultiEd25519Items(v)), |v.publicKeys|)
      && forall i :: 0 <= i < |v.publicKeys| ==>
           FromMultiEd25519(v).value[i].publicKey == PublicKey("ed25519", HashText(v.publicKeys[i]), Some(i))
  {
    if |v.signatures| == |v.publicKeyIndices| {
      IndexExactly(MultiEd25519Items(v), EdBuilder);
      if FromMultiEd25519(v).Success? {
        ItemsJoin(MultiEd25519Items(v), EdBuilder, FromMultiEd25519(v).value);
      }
    }
  }

  /** A multi-key signature flattens exactly when keys and signatures convert and no key index repeats. */
  lemma {:induction false} MultiKeyJoin(v: MultiKeyProto)
    ensures FromMultiKey(v).Success? <==>
      Distinct(MultiKeyItems(v)) && forall i :: 0 <= i < |v.publicKeys| ==> ConvertKey(v.publicKeys[i]).Success?
    ensures FromMultiKey(v).Success? ==>
      && Joins(FromMultiKey(v).value, Values(MultiKeyItems(v)), |v.publicKeys|)
      && forall i :: 0 <= i < |v.publicKeys| ==> Success(FromMultiKey(v).value[i].publicKey) == ConvertKey(v.publicKeys[i])
  {
    IndexExactly(MultiKeyItems(v), KeyBuilder);
    if Distinct(MultiKeyItems(v)) {
      MultiKeyRecordsExactly(v, Index(MultiKeyItems(v), KeyBuilder).value, |v.publicKeys|);
      if FromMultiKey(v).Success? {
        ItemsJoin(MultiKeyItems(v), KeyBuilder, FromMultiKey(v).value);
      }
    }
  }
}
