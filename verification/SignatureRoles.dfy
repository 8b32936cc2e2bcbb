/** Roles, build types and signers of flattened signatures (reps/signatures.rs, tables/signatures.rs). */
module SignatureRoles {
  import opened Wrappers
  import opened Deferreds
  import opened Signatures
  import opened Sequences
  import Address

  type Records = Result<seq<SubRecord>, SignatureError>

  function FromSingleKey(v: SingleKeyProto): Result<SubRecord, SignatureError> {
    if v.publicKey.None? then Failure(SingleKeySignatureMissingPubKey)
    else if v.signature.None? then Failure(SingleKeySignatureMissingSignature)
    else if v.signature.value.variant.None? then Failure(UnsupportedSignatureVariant)
    else
      var key :- ConvertKey(v.publicKey.value);
      var sig :- ConvertSig(v.signature.value, None);
      Success(Account(Deferred, key, Some(sig), None))
  }

  function FromAbstraction(v: Bytes): SubRecord {
    SubRecord(Deferred, PublicKey("Unspecified", "Abstraction", None),
              Some(SigValue("Abstraction", HashText(v), None)), None, Deferred,
              DeferredFallback(None), DeferredFallback(None), DeferredFallback(None))
  }

  function FromAccount(v: AccountSignature): Records {
    match (v.accountType, v.data)
    case (AcctEd25519, Some(AcctEd25519Data(d))) => Success([FromEd25519(d)])
    case (AcctMultiEd25519, Some(AcctMultiEd25519Data(d))) => FromMultiEd25519(d)
    case (AcctMultiKey, Some(AcctMultiKeyData(d))) => FromMultiKey(d)
    case (AcctSingleKey, Some(AcctSingleKeyData(d))) =>
      var record :- FromSingleKey(d);
      Success([record])
    case (AcctUnspecified, _) => Failure(UnspecifiedAccountSignature)
    case (AcctAbstraction, Some(AcctAbstractionData(d))) => Success([FromAbstraction(d)])
    case (_, None) => Failure(MissingAccountSignatureData)
    case (_, _) => Failure(UnspecifiedAccountSignature)
  }

  /** The part an account plays in a transaction's signature. */
  datatype Role = SoleSender | AgentSender | AgentSecondary(address: string)
                | PayerSender | PayerFeePayer(address: string) | PayerSecondary(address: string)

  /** The fields each composite builder overwrites on an account's records. */
  function Assign(role: Role, r: SubRecord): SubRecord {
    match role
    case SoleSender => r.(buildType := DeferredFallback(SingleSender))
    case AgentSender =>
      r.(buildType := DeferredFallback(MultiAgent), isSecondary := Present(Some(false)), isSender := Present(Some(true)))
    case AgentSecondary(a) =>
      r.(buildType := DeferredFallback(MultiAgent), signer := Present(a),
         isSecondary := Present(Some(true)), isSender := Present(Some(false)))
    case PayerSender =>
      r.(buildType := DeferredFallback(FeePayer), isFeePayer := Present(Some(false)),
         isSecondary := Present(Some(false)), isSender := Present(Some(true)))
    case PayerFeePayer(a) =>
      r.(buildType := DeferredFallback(FeePayer), signer := Present(a), isFeePayer := Present(Some(true)),
         isSecondary := Present(Some(false)), isSender := Present(Some(false)))
    case PayerSecondary(a) =>
      r.(buildType := DeferredFallback(FeePayer), signer := Present(a), isFeePayer := Present(Some(false)),
         isSecondary := Present(Some(true)), isSender := Present(Some(false)))
  }

  function AssignAll(role: Role, rs: seq<SubRecord>): (out: seq<SubRecord>)
    ensures |out| == |rs|
  {
    seq(|rs|, i requires 0 <= i < |rs| => Assign(role, rs[i]))
  }

  function FromRole(role: Role, v: AccountSignature): Records {
    var rs :- FromAccount(v);
    Success(AssignAll(role, rs))
  }

  /** Which composite signature's secondary signers are being flattened. */
  function SecondaryRole(build: SigType, address: string): Role {
    if build.MultiAgent? then AgentSecondary(address) else PayerSecondary(address)
  }

  function Zipped(signers: seq<AccountSignature>, addresses: seq<string>): nat {
    if |signers| < |addresses| then |signers| else |addresses|
  }

  /** The first n pairs of signer and address; extra signers or addresses are dropped by the zip. */
  function Secondaries(build: SigType, signers: seq<AccountSignature>, addresses: seq<string>, n: nat): Records
    requires n <= |signers| && n <= |addresses|
  {
    if n == 0 then Success([])
    else
      var before :- Secondaries(build, signers, addresses, n - 1);
      var rs :- FromRole(SecondaryRole(build, addresses[n - 1]), signers[n - 1]);
      Success(before + rs)
  }

  function AllSecondaries(build: SigType, signers: seq<AccountSignature>, addresses: seq<string>): Records {
    Secondaries(build, signers, addresses, Zipped(signers, addresses))
  }

  function FromMultiAgent(v: MultiAgentProto): Records {
    var secondaries :- AllSecondaries(MultiAgent, v.secondarySigners, v.secondaryAddresses);
    if v.sender.None? then Failure(MultiAgentMissingSender)
    else
      var sender :- FromRole(AgentSender, v.sender.value);
      Success(secondaries + sender)
  }

  function FromFeePayer(v: FeePayerProto): Records {
    if v.sender.None? then Failure(FeePayerMissingSender)
    else
      var sender :- FromRole(PayerSender, v.sender.value);
      if v.feePayerSigner.None? then Failure(FeePayerMissingFeePayer)
      else
        var payer :- FromRole(PayerFeePayer(v.feePayerAddress), v.feePayerSigner.value);
        var secondaries :- AllSecondaries(FeePayer, v.secondarySigners, v.secondaryAddresses);
        Success(sender + payer + secondaries)
  }

  function FromSingleSender(v: Option<AccountSignature>): Records {
    if v.None? then Failure(MissingSingleSender) else FromRole(SoleSender, v.value)
  }

  function FromSignature(v: Signature): Records {
    match (v.sigType, v.data)
    case (Ed25519, Some(Ed25519Data(d))) => Success([FromEd25519(d)])
    case (MultiEd25519, Some(MultiEd25519Data(d))) => FromMultiEd25519(d)
    case (MultiAgent, Some(MultiAgentData(d))) => FromMultiAgent(d)
    case (FeePayer, Some(FeePayerData(d))) => FromFeePayer(d)
    case (SingleSender, Some(SingleSenderData(d))) => FromSingleSender(d)
    case (Unspecified, _) => Failure(UnspecifiedSignatureType)
    case (_, None) => Failure(MissingSignatureData)
    case (_, _) => Failure(UnspecifiedSignatureType)
  }

  // The builders' loops

  /** Pushes an account's records with the role's fields overwritten. */
  method PushAssigned(role: Role, rs: seq<SubRecord>) returns (out: seq<SubRecord>)
    ensures out == AssignAll(role, rs)
  {
    out := [];
    for i := 0 to |rs|
      invariant out == AssignAll(role, rs[..i])
    {
      out := out + [Assign(role, rs[i])];
    }
    assert rs[..|rs|] == rs;
  }

  /** Overwrites the role's fields record by record, as the fee payer builder's `iter_mut` loops do. */
  method OverwriteAssigned(role: Role, rs: seq<SubRecord>) returns (out: seq<SubRecord>)
    ensures out == AssignAll(role, rs)
  {
    out := rs;
    for i := 0 to |rs|
      invariant |out| == |rs|
      invariant forall j :: 0 <= j < |rs| ==> out[j] == if j < i then Assign(role, rs[j]) else rs[j]
    {
      out := out[i := Assign(role, out[i])];
    }
  }

  /** The loop over zipped secondary signers and addresses. */
  method PushSecondaries(build: SigType, signers: seq<AccountSignature>, addresses: seq<string>) returns (r: Records)
    ensures r == AllSecondaries(build, signers, addresses)
  {
    var records: seq<SubRecord> := [];
    for i := 0 to Zipped(signers, addresses)
      invariant Secondaries(build, signers, addresses, i) == Success(records)
    {
      SecondariesFailureStays(build, signers, addresses, i + 1);
      var rs := FromAccount(signers[i]);
      if rs.Failure? {
        return Failure(rs.error);
      }
      var pushed := PushAssigned(SecondaryRole(build, addresses[i]), rs.value);
      records := records + pushed;
    }
    return Success(records);
  }

  lemma {:induction false} SecondariesFailureStays(build: SigType, signers: seq<AccountSignature>, addresses: seq<string>, i: nat)
    requires i <= Zipped(signers, addresses)
    ensures Secondaries(build, signers, addresses, i).Failure? ==>
      AllSecondaries(build, signers, addresses) == Secondaries(build, signers, addresses, i)
    decreases Zipped(signers, addresses) - i
  {
    if i < Zipped(signers, addresses) {
      SecondariesFailureStays(build, signers, addresses, i + 1);
    }
  }

  /** `from_multiagentsignature`: secondary signers first, then the sender. */
  method BuildMultiAgent(v: MultiAgentProto) returns (r: Records)
    ensures r == FromMultiAgent(v)
  {
    var secondaries := PushSecondaries(MultiAgent, v.secondarySigners, v.secondaryAddresses);
    if secondaries.Failure? {
      return secondaries;
    }
    if v.sender.None? {
      return Failure(MultiAgentMissingSender);
    }
    var rs := FromAccount(v.sender.value);
    if rs.Failure? {
      return rs;
    }
    var sender := PushAssigned(AgentSender, rs.value);
    return Success(secondaries.value + sender);
  }

  /** `from_feepayersignature`: sender, fee payer, then secondary signers. */
  method BuildFeePayer(v: FeePayerProto) returns (r: Records)
    ensures r == FromFeePayer(v)
  {
    if v.sender.None? {
      return Failure(FeePayerMissingSender);
    }
    var rs := FromAccount(v.sender.value);
    if rs.Failure? {
      return rs;
    }
    var sender := OverwriteAssigned(PayerSender, rs.value);
    if v.feePayerSigner.None? {
      return Failure(FeePayerMissingFeePayer);
    }
    rs := FromAccount(v.feePayerSigner.value);
    if rs.Failure? {
      return rs;
    }
    var payer := OverwriteAssigned(PayerFeePayer(v.feePayerAddress), rs.value);
    var secondaries := PushSecondaries(FeePayer, v.secondarySigners, v.secondaryAddresses);
    if secondaries.Failure? {
      return secondaries;
    }
    return Success(sender + payer + secondaries.value);
  }

  // Rows

  /** A row of the signatures table; the fields copied from the transaction are its version and time. */
  datatype SignatureRow = SignatureRow(
    version: nat, publicKey: PublicKey, signature: Option<SigValue>, threshold: Option<nat>, buildType: SigType,
    signer: string, isSecondary: Option<bool>, isFeePayer: Option<bool>, isSender: Option<bool>)

  datatype SigProcessError =
    | SubRecordFailure(cause: SignatureError)
    | DeferredFailure
    | AddressFailure(address: Address.AddressErrorType)

  /** Turns one subrecord into a row: flags, build type, then the signer or the default. */
  function Resolve(version: nat, defaultSigner: string, s: SubRecord): Result<SignatureRow, SigProcessError> {
    if !s.isSecondary.IsUsable() || !s.isFeePayer.IsUsable() || !s.isSender.IsUsable() || !s.buildType.IsUsable()
    then Failure(DeferredFailure)
    else
      var signer :- match s.signer.Extract()
                    case Success(a) => Address.Fixed(a).MapFailure(e => AddressFailure(e))
                    case Failure(_) => Success(defaultSigner);
      Success(SignatureRow(version, s.publicKey, s.signature, s.threshold, s.buildType.Extract().value, signer,
                           s.isSecondary.Extract().value, s.isFeePayer.Extract().value, s.isSender.Extract().value))
  }

  /** The rows of the first n subrecords; the first that does not resolve is the error. */
  function ResolveAll(version: nat, defaultSigner: string, subs: seq<SubRecord>, n: nat):
    (r: Result<seq<SignatureRow>, SigProcessError>)
    requires n <= |subs|
    ensures r.Success? ==> |r.value| == n
  {
    if n == 0 then Success([])
    else
      var before :- ResolveAll(version, defaultSigner, subs, n - 1);
      var row :- Resolve(version, defaultSigner, subs[n - 1]);
      Success(before + [row])
  }

  /** `get_signatures` for a user transaction: the sender's address must encode before any row is built. */
  function GetSignatures(version: nat, sender: string, v: Signature): Result<seq<SignatureRow>, SigProcessError> {
    var subs :- FromSignature(v).MapFailure(e => SubRecordFailure(e));
    var defaultSigner :- Address.Fixed(sender).MapFailure(e => AddressFailure(e));
    ResolveAll(version, defaultSigner, subs, |subs|)
  }

  method BuildSignatures(version: nat, sender: string, v: Signature) returns (r: Result<seq<SignatureRow>, SigProcessError>)
    ensures r == GetSignatures(version, sender, v)
  {
    var subs := FromSignature(v);
    if subs.Failure? {
      return Failure(SubRecordFailure(subs.error));
    }
    var defaultSigner, _ := Address.TryFixString(sender);
    if defaultSigner.Failure? {
      return Failure(AddressFailure(defaultSigner.error));
    }
    r := ResolveRows(version, defaultSigner.value, subs.value);
  }

  /** The loop over subrecords. */
  method ResolveRows(version: nat, defaultSigner: string, subs: seq<SubRecord>)
    returns (r: Result<seq<SignatureRow>, SigProcessError>)
    ensures r == ResolveAll(version, defaultSigner, subs, |subs|)
  {
    hide Resolve;
    var rows: seq<SignatureRow> := [];
    for i := 0 to |subs|
      invariant ResolveAll(version, defaultSigner, subs, i) == Success(rows)
    {
      ResolveFailureStays(version, defaultSigner, subs, i + 1);
      var row := Resolve(version, defaultSigner, subs[i]);
      if row.Failure? {
        return Failure(row.error);
      }
      rows := rows + [row.value];
    }
    return Success(rows);
  }

  lemma {:induction false} ResolveFailureStays(version: nat, defaultSigner: string, subs: seq<SubRecord>, i: nat)
    requires i <= |subs|
    ensures ResolveAll(version, defaultSigner, subs, i).Failure? ==>
      ResolveAll(version, defaultSigner, subs, |subs|) == ResolveAll(version, defaultSigner, subs, i)
    decreases |subs| - i
  {
    if i < |subs| {
      ResolveFailureStays(version, defaultSigner, subs, i + 1);
    }
  }

  // What roles promise

  /** An account's records before any context: no signer, and role flags that are usable and empty. */
  predicate Unassigned(r: SubRecord) {
    && r.signer.Deferred?
    && r.isSecondary.Extract() == Success(None)
    && r.isFeePayer.Extract() == Success(None)
    && r.isSender.Extract() == Success(None)
  }

  lemma {:induction false} MultiKeyUnassigned(v: MultiKeyProto, sigs: map<nat, SigValue>, n: nat)
    requires n <= |v.publicKeys| && MultiKeyRecords(v, sigs, n).Success?
    ensures forall i :: 0 <= i < n ==> Unassigned(MultiKeyRecords(v, sigs, n).value[i])
  {
    if n > 0 {
      MultiKeyUnassigned(v, sigs, n - 1);
    }
  }

  lemma {:induction false} AccountUnassigned(v: AccountSignature)
    requires FromAccount(v).Success?
    ensures forall i :: 0 <= i < |FromAccount(v).value| ==> Unassigned(FromAccount(v).value[i])
  {
    match v.data
    case Some(AcctMultiKeyData(d)) => MultiKeyUnassigned(d, Index(MultiKeyItems(d), KeyBuilder).value, |d.publicKeys|);
    case _ =>
  }

  /** One account's part in a composite signature. */
  datatype Contribution = Contribution(role: Role, account: AccountSignature)

  function ZipContributions(build: SigType, signers: seq<AccountSignature>, addresses: seq<string>, n: nat): (r: seq<Contribution>)
    requires n <= |signers| && n <= |addresses|
    ensures |r| == n
  {
    seq(n, i requires 0 <= i < n => Contribution(SecondaryRole(build, addresses[i]), signers[i]))
  }

  /** The contributions of a composite signature, in the order their rows appear. */
  function Contributions(v: Signature): seq<Contribution> {
    match v.data
    case Some(MultiAgentData(d)) =>
      ZipContributions(MultiAgent, d.secondarySigners, d.secondaryAddresses, Zipped(d.secondarySigners, d.secondaryAddresses))
      + (if d.sender.Some? then [Contribution(AgentSender, d.sender.value)] else [])
    case Some(FeePayerData(d)) =>
      (if d.sender.Some? then [Contribution(PayerSender, d.sender.value)] else [])
      + (if d.feePayerSigner.Some? then [Contribution(PayerFeePayer(d.feePayerAddress), d.feePayerSigner.value)] else [])
      + ZipContributions(FeePayer, d.secondarySigners, d.secondaryAddresses, Zipped(d.secondarySigners, d.secondaryAddresses))
    case Some(SingleSenderData(Some(account))) => [Contribution(SoleSender, account)]
    case _ => []
  }

  predicate AllFlatten(cs: seq<Contribution>) {
    forall i :: 0 <= i < |cs| ==> FromAccount(cs[i].account).Success?
  }

  function RecordsOf(c: Contribution): seq<SubRecord>
    requires FromAccount(c.account).Success?
  {
    AssignAll(c.role, FromAccount(c.account).value)
  }

  function Parts(cs: seq<Contribution>): (r: seq<seq<SubRecord>>)
    requires AllFlatten(cs)
    ensures |r| == |cs|
  {
    if cs == [] then [] else Parts(cs[..|cs| - 1]) + [RecordsOf(cs[|cs| - 1])]
  }

  /** The records of the contributions, one account after the other. */
  function Flatten(cs: seq<Contribution>): seq<SubRecord>
    requires AllFlatten(cs)
  {
    Concat(Parts(cs))
  }

  /** For every record of the flattened signature, the contribution it comes from. */
  function Owners(cs: seq<Contribution>): seq<Contribution>
    requires AllFlatten(cs)
  {
    if cs == [] then []
    else
      var last := cs[|cs| - 1];
      Owners(cs[..|cs| - 1]) + seq(|RecordsOf(last)|, _ => last)
  }

  lemma {:induction false} PartsAppend(a: seq<Contribution>, b: seq<Contribution>)
    requires AllFlatten(a) && AllFlatten(b)
    ensures AllFlatten(a + b) && Parts(a + b) == Parts(a) + Parts(b)
  {
    hide RecordsOf, FromAccount;
    if b == [] {
      assert a + b == a;
    } else {
      var n := |b| - 1;
      var both := a + b;
      PartsAppend(a, b[..n]);
      assert both[..|both| - 1] == a + b[..n];
      assert both[|both| - 1] == b[n];
    }
  }

  lemma {:induction false} FlattenAppend(a: seq<Contribution>, b: seq<Contribution>)
    requires AllFlatten(a) && AllFlatten(b)
    ensures AllFlatten(a + b) && Flatten(a + b) == Flatten(a) + Flatten(b)
  {
    PartsAppend(a, b);
    ConcatAppend(Parts(a), Parts(b));
  }

  lemma {:induction false} SingleFlatten(c: Contribution)
    requires FromAccount(c.account).Success?
    ensures AllFlatten([c]) && Flatten([c]) == RecordsOf(c)
  {
    assert [c][..0] == [];
    ConcatOne(RecordsOf(c));
  }

  lemma {:induction false} FlattenLast(cs: seq<Contribution>)
    requires AllFlatten(cs) && cs != []
    ensures AllFlatten(cs[..|cs| - 1]) && Flatten(cs) == Flatten(cs[..|cs| - 1]) + RecordsOf(cs[|cs| - 1])
  {
    var parts := Parts(cs);
    assert parts[..|parts| - 1] == Parts(cs[..|cs| - 1]);
  }

  lemma {:induction false} SecondariesFlatten(build: SigType, signers: seq<AccountSignature>, addresses: seq<string>, n: nat)
    requires n <= |signers| && n <= |addresses| && Secondaries(build, signers, addresses, n).Success?
    ensures AllFlatten(ZipContributions(build, signers, addresses, n))
    ensures Flatten(ZipContributions(build, signers, addresses, n)) == Secondaries(build, signers, addresses, n).value
  {
    hide FromAccount;
    if n > 0 {
      SecondariesFlatten(build, signers, addresses, n - 1);
      var cs := ZipContributions(build, signers, addresses, n);
      assert cs[n - 1].account == signers[n - 1];
      assert AllFlatten(cs) by {
        assert forall i :: 0 <= i < n - 1 ==> cs[i] == ZipContributions(build, signers, addresses, n - 1)[i];
      }
      FlattenLast(cs);
      assert cs[..n - 1] == ZipContributions(build, signers, addresses, n - 1);
    }
  }

  predicate IsComposite(t: SigType) {
    t.MultiAgent? || t.FeePayer? || t.SingleSender?
  }

  /** A composite signature flattens to its contributions' records, each with its role's fields. */
  lemma {:induction false} FromSignatureFlattens(v: Signature)
    requires IsComposite(v.sigType) && FromSignature(v).Success?
    ensures AllFlatten(Contributions(v)) && FromSignature(v).value == Flatten(Contributions(v))
  {
    match v.data
    case Some(MultiAgentData(d)) =>
      SecondariesFlatten(MultiAgent, d.secondarySigners, d.secondaryAddresses, Zipped(d.secondarySigners, d.secondaryAddresses));
      SingleFlatten(Contribution(AgentSender, d.sender.value));
      FlattenAppend(ZipContributions(MultiAgent, d.secondarySigners, d.secondaryAddresses, Zipped(d.secondarySigners, d.secondaryAddresses)),
                    [Contribution(AgentSender, d.sender.value)]);
    case Some(FeePayerData(d)) =>
      var zipped := ZipContributions(FeePayer, d.secondarySigners, d.secondaryAddresses, Zipped(d.secondarySigners, d.secondaryAddresses));
      var sender := Contribution(PayerSender, d.sender.value);
      var payer := Contribution(PayerFeePayer(d.feePayerAddress), d.feePayerSigner.value);
      SecondariesFlatten(FeePayer, d.secondarySigners, d.secondaryAddresses, Zipped(d.secondarySigners, d.secondaryAddresses));
      SingleFlatten(sender);
      SingleFlatten(payer);
      FlattenAppend([sender], [payer]);
      FlattenAppend([sender] + [payer], zipped);
    case Some(SingleSenderData(account)) =>
      SingleFlatten(Contribution(SoleSender, account.value));
  }

  function RoleBuild(role: Role): SigType {
    match role
    case SoleSender => SingleSender
    case AgentSender => MultiAgent
    case AgentSecondary(_) => MultiAgent
    case _ => FeePayer
  }

  /** A record that says of itself exactly what its role calls for. */
  predicate Carries(role: Role, s: SubRecord) {
    && s.buildType.Extract() == Success(RoleBuild(role))
    && s.isSender.Extract() == Success(
         if role.SoleSender? then None else Some(role.AgentSender? || role.PayerSender?))
    && s.isSecondary.Extract() == Success(
         if role.SoleSender? then None else Some(role.AgentSecondary? || role.PayerSecondary?))
    && s.isFeePayer.Extract() == Success(
         if RoleBuild(role).FeePayer? then Some(role.PayerFeePayer?) else None)
    && s.signer == if role.SoleSender? || role.AgentSender? || role.PayerSender? then Deferred else Present(role.address)
  }

  lemma {:induction false} AssignCarries(role: Role, r: SubRecord)
    requires Unassigned(r)
    ensures Carries(role, Assign(role, r))
  {
  }

  /** Record i of the flattening carries the role of its owner. */
  lemma {:induction false} FlattenFollowsOwners(cs: seq<Contribution>)
    requires AllFlatten(cs)
    ensures |Flatten(cs)| == |Owners(cs)|
    ensures forall i :: 0 <= i < |Flatten(cs)| ==> Carries(Owners(cs)[i].role, Flatten(cs)[i])
  {
    if cs != [] {
      var n := |cs| - 1;
      var last, rs := cs[n], FromAccount(cs[n].account).value;
      FlattenLast(cs);
      FlattenFollowsOwners(cs[..n]);
      AccountUnassigned(last.account);
      forall i | 0 <= i < |rs| ensures Carries(last.role, AssignAll(last.role, rs)[i]) {
        AssignCarries(last.role, rs[i]);
      }
    }
  }

  /** What a row must say about the part its signer played. */
  predicate RowPlays(role: Role, row: SignatureRow, defaultSigner: string) {
    match role
    case SoleSender =>
      row.buildType == SingleSender && row.signer == defaultSigner
      && row.isSender.None? && row.isSecondary.None? && row.isFeePayer.None?
    case AgentSender =>
      row.buildType == MultiAgent && row.signer == defaultSigner
      && row.isSender == Some(true) && row.isSecondary == Some(false) && row.isFeePayer.None?
    case AgentSecondary(a) =>
      row.buildType == MultiAgent && Address.Fixed(a) == Success(row.signer)
      && row.isSender == Some(false) && row.isSecondary == Some(true) && row.isFeePayer.None?
    case PayerSender =>
      row.buildType == FeePayer && row.signer == defaultSigner
      && row.isSender == Some(true) && row.isSecondary == Some(false) && row.isFeePayer == Some(false)
    case PayerFeePayer(a) =>
      row.buildType == FeePayer && Address.Fixed(a) == Success(row.signer)
      && row.isSender == Some(false) && row.isSecondary == Some(false) && row.isFeePayer == Some(true)
    case PayerSecondary(a) =>
      row.buildType == FeePayer && Address.Fixed(a) == Success(row.signer)
      && row.isSender == Some(false) && row.isSecondary == Some(true) && row.isFeePayer == Some(false)
  }

  lemma {:induction false} ResolveCarried(version: nat, defaultSigner: string, role: Role, s: SubRecord)
    requires Carries(role, s) && Resolve(version, defaultSigner, s).Success?
    ensures RowPlays(role, Resolve(version, defaultSigner, s).value, defaultSigner)
  {
  }

  lemma {:induction false} ResolveEach(version: nat, defaultSigner: string, subs: seq<SubRecord>, n: nat)
    requires n <= |subs|
    ensures ResolveAll(version, defaultSigner, subs, n).Success? ==> forall i :: 0 <= i < n ==>
      Resolve(version, defaultSigner, subs[i]) == Success(ResolveAll(version, defaultSigner, subs, n).value[i])
    ensures ResolveAll(version, defaultSigner, subs, n).Failure? ==>
      exists i :: 0 <= i < n && Resolve(version, defaultSigner, subs[i]) == Failure(ResolveAll(version, defaultSigner, subs, n).error)
  {
    if n > 0 {
      ResolveEach(version, defaultSigner, subs, n - 1);
    }
  }

  lemma {:induction false} RowsPlayRoles(version: nat, defaultSigner: string, subs: seq<SubRecord>, owners: seq<Contribution>)
    requires |subs| == |owners| && forall i :: 0 <= i < |subs| ==> Carries(owners[i].role, subs[i])
    requires ResolveAll(version, defaultSigner, subs, |subs|).Success?
    ensures forall i :: 0 <= i < |subs| ==>
      RowPlays(owners[i].role, ResolveAll(version, defaultSigner, subs, |subs|).value[i], defaultSigner)
  {
    var rows := ResolveAll(version, defaultSigner, subs, |subs|).value;
    ResolveEach(version, defaultSigner, subs, |subs|);
    forall i | 0 <= i < |subs| ensures RowPlays(owners[i].role, rows[i], defaultSigner) {
      assert Resolve(version, defaultSigner, subs[i]) == Success(rows[i]);
      ResolveCarried(version, defaultSigner, owners[i].role, subs[i]);
    }
  }

  /** Every row of a composite signature plays the role of the contribution that owns it. */
  lemma {:induction false} RowsPlayTheirRoles(version: nat, sender: string, v: Signature)
    requires IsComposite(v.sigType) && GetSignatures(version, sender, v).Success?
    ensures AllFlatten(Contributions(v)) && Address.Fixed(sender).Success?
    ensures |GetSignatures(version, sender, v).value| == |Owners(Contributions(v))|
    ensures forall i :: 0 <= i < |Owners(Contributions(v))| ==>
      RowPlays(Owners(Contributions(v))[i].role, GetSignatures(version, sender, v).value[i], Address.Fixed(sender).value)
  {
    FromSignatureFlattens(v);
    FlattenFollowsOwners(Contributions(v));
    RowsPlayRoles(version, Address.Fixed(sender).value, FromSignature(v).value, Owners(Contributions(v)));
  }

  /** Every record of a signature can be resolved, and carries the outer signature's build type. */
  lemma {:induction false} FromSignatureUsable(v: Signature)
    requires FromSignature(v).Success?
    ensures forall i :: 0 <= i < |FromSignature(v).value| ==>
      && FromSignature(v).value[i].buildType.Extract() == Success(v.sigType)
      && FromSignature(v).value[i].isSecondary.IsUsable()
      && FromSignature(v).value[i].isFeePayer.IsUsable()
      && FromSignature(v).value[i].isSender.IsUsable()
  {
    if IsComposite(v.sigType) {
      FromSignatureFlattens(v);
      FlattenFollowsOwners(Contributions(v));
      OwnersBuild(v);
    }
  }

  lemma {:induction false} OwnersAmong(cs: seq<Contribution>)
    requires AllFlatten(cs)
    ensures forall i :: 0 <= i < |Owners(cs)| ==> Owners(cs)[i] in cs
  {
    if cs != [] {
      OwnersAmong(cs[..|cs| - 1]);
    }
  }

  lemma {:induction false} OwnersBuild(v: Signature)
    requires IsComposite(v.sigType) && FromSignature(v).Success? && AllFlatten(Contributions(v))
    ensures forall i :: 0 <= i < |Owners(Contributions(v))| ==> RoleBuild(Owners(Contributions(v))[i].role) == v.sigType
  {
    OwnersAmong(Contributions(v));
    assert forall c :: c in Contributions(v) ==> RoleBuild(c.role) == v.sigType;
  }

  /** The deferred-value error of `get_signatures` cannot occur. */
  lemma {:induction false} DeferredFailureUnreachable(version: nat, sender: string, v: Signature)
    ensures GetSignatures(version, sender, v) != Failure(DeferredFailure)
    ensures GetSignatures(version, sender, v).Success? ==>
      |GetSignatures(version, sender, v).value| == |FromSignature(v).value|
      && forall i :: 0 <= i < |GetSignatures(version, sender, v).value| ==>
           GetSignatures(version, sender, v).value[i].buildType == v.sigType
  {
    if FromSignature(v).Success? && Address.Fixed(sender).Success? {
      var subs := FromSignature(v).value;
      FromSignatureUsable(v);
      ResolveEach(version, Address.Fixed(sender).value, subs, |subs|);
    }
  }

  /** Every signer column is a repaired address, the default one included. */
  lemma {:induction false} SignersAreRepaired(version: nat, sender: string, v: Signature)
    requires GetSignatures(version, sender, v).Success?
    ensures forall i :: 0 <= i < |GetSignatures(version, sender, v).value| ==>
      Address.Fixed(GetSignatures(version, sender, v).value[i].signer) == Success(GetSignatures(version, sender, v).value[i].signer)
  {
    hide Address.Fixed, FromSignature;
    var subs, signer := FromSignature(v).value, Address.Fixed(sender).value;
    ResolveEach(version, signer, subs, |subs|);
    Address.FixedIsIdempotent(sender);
    var rows := ResolveAll(version, signer, subs, |subs|).value;
    forall i | 0 <= i < |subs| ensures Address.Fixed(rows[i].signer) == Success(rows[i].signer) {
      assert Resolve(version, signer, subs[i]) == Success(rows[i]);
      if subs[i].signer.Extract().Success? {
        Address.FixedIsIdempotent(subs[i].signer.Extract().value);
      }
    }
  }
}
