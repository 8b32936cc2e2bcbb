/** Write-set changes, the three sub-tables they split into, and their counts
    (reps/changes.rs, reps/transaction/tx_info.rs, tables/changes.rs). */
module Changes {
  import opened Wrappers
  import Address
  import MoveTypes

  datatype ChangeType =
    | Unspecified | DeleteModule | WriteModule | DeleteResource | WriteResource | DeleteTableItem | WriteTableItem

  /** A module's ABI as the encoders turn it out, or the error they stop at. */
  type EncodedAbi = Result<string, string>

  datatype ChangeData =
    | DeleteModuleData(address: string, hash: string)
    | WriteModuleData(address: string, hash: string, bytecode: Option<Option<EncodedAbi>>)
    | DeleteResourceData(address: string, hash: string, structTag: Option<MoveTypes.StructTag>)
    | WriteResourceData(address: string, hash: string, structTag: Option<MoveTypes.StructTag>)
    | DeleteTableItemData(handle: string, hash: string, key: Option<string>)
    | WriteTableItemData(handle: string, hash: string, keyAndValue: Option<(string, string)>)

  datatype WriteSetChange = WriteSetChange(changeType: ChangeType, change: Option<ChangeData>)

  /** A change after its type and data have been checked against each other. */
  datatype IncompleteChange =
    | Module(changeType: ChangeType, address: string, hash: string, abi: Option<EncodedAbi>)
    | Resource(changeType: ChangeType, address: string, hash: string, structTag: Option<MoveTypes.StructTag>)
    | TableItem(changeType: ChangeType, address: string, hash: string, key: string, value: Option<string>)

  datatype ExtractError =
    | MissingChangeData | MismatchChangeData | MissingModuleBytecodeData | MissingTableData
    | StructTagDecode(cause: MoveTypes.MoveTypeError)
    | UnaccountedForChanges(types: set<ChangeType>)

  /** `StructTag::try_from` on an optional tag: every direct parameter's enum number must be known. */
  function DecodeStructTag(tag: Option<MoveTypes.StructTag>): Result<Option<MoveTypes.StructTag>, ExtractError> {
    if tag.None? then Success(None)
    else
      var _ :- MoveTypes.DecodeParams(tag.value.params).MapFailure(e => StructTagDecode(e));
      Success(tag)
  }

  /** `strip_quotes`: a closing quotation mark goes, together with an opening one; without a closing one the text stays. */
  function StripQuotes(s: string): string {
    var inner := if s != "" && s[0] == '"' then s[1..] else s;
    if inner != "" && inner[|inner| - 1] == '"' then inner[..|inner| - 1] else s
  }

  function TryFrom(w: WriteSetChange): Result<IncompleteChange, ExtractError> {
    match (w.changeType, w.change)
    case (DeleteModule, Some(DeleteModuleData(a, h))) => Success(Module(DeleteModule, a, h, None))
    case (WriteModule, Some(WriteModuleData(a, h, bytecode))) =>
      if bytecode.None? then Failure(MissingModuleBytecodeData) else Success(Module(WriteModule, a, h, bytecode.value))
    case (DeleteResource, Some(DeleteResourceData(a, h, tag))) =>
      var decoded :- DecodeStructTag(tag);
      Success(Resource(DeleteResource, a, h, decoded))
    case (WriteResource, Some(WriteResourceData(a, h, tag))) =>
      var decoded :- DecodeStructTag(tag);
      Success(Resource(WriteResource, a, h, decoded))
    case (WriteTableItem, Some(WriteTableItemData(a, h, data))) =>
      if data.None? then Failure(MissingTableData)
      else Success(TableItem(WriteTableItem, a, h, StripQuotes(data.value.0), Some(StripQuotes(data.value.1))))
    case (DeleteTableItem, Some(DeleteTableItemData(a, h, key))) =>
      if key.None? then Failure(MissingTableData) else Success(TableItem(DeleteTableItem, a, h, StripQuotes(key.value), None))
    case (_, Some(_)) => Failure(MismatchChangeData)
    case (_, None) => Failure(MissingChangeData)
  }

  /** The change's type belongs to the kind of record it is. */
  predicate WellTyped(c: IncompleteChange) {
    match c
    case Module(t, _, _, _) => t.DeleteModule? || t.WriteModule?
    case Resource(t, _, _, _) => t.DeleteResource? || t.WriteResource?
    case TableItem(t, _, _, _, _) => t.DeleteTableItem? || t.WriteTableItem?
  }

  predicate AllWellTyped(cs: seq<IncompleteChange>) {
    forall i :: 0 <= i < |cs| ==> WellTyped(cs[i])
  }

  /** The conversion loop of `TransactionInfoExtraction::try_from`: stops at the first failing change. */
  function ExtractChanges(ws: seq<WriteSetChange>): (r: Result<seq<IncompleteChange>, ExtractError>)
    ensures r.Success? ==> |r.value| == |ws| && AllWellTyped(r.value)
  {
    if ws == [] then Success([])
    else
      var before :- ExtractChanges(ws[..|ws| - 1]);
      var last :- TryFrom(ws[|ws| - 1]);
      Success(before + [last])
  }

  method BuildChanges(ws: seq<WriteSetChange>) returns (r: Result<seq<IncompleteChange>, ExtractError>)
    ensures r == ExtractChanges(ws)
  {
    var changes: seq<IncompleteChange> := [];
    for i := 0 to |ws|
      invariant ExtractChanges(ws[..i]) == Success(changes)
    {
      assert ws[..i + 1][..i] == ws[..i];
      ExtractFailureStays(ws, i + 1);
      var c := TryFrom(ws[i]);
      if c.Failure? {
        return Failure(c.error);
      }
      changes := changes + [c.value];
    }
    assert ws[..|ws|] == ws;
    return Success(changes);
  }

  lemma {:induction false} ExtractFailureStays(ws: seq<WriteSetChange>, i: nat)
    requires i <= |ws|
    ensures ExtractChanges(ws[..i]).Failure? ==> ExtractChanges(ws) == ExtractChanges(ws[..i])
    decreases |ws| - i
  {
    if i < |ws| {
      ExtractFailureStays(ws, i + 1);
      assert ws[..i + 1][..i] == ws[..i];
    } else {
      assert ws[..i] == ws;
    }
  }

  // Counting

  datatype ChangesAggregate = ChangesAggregate(
    total: nat, deleteModule: nat, writeModule: nat, deleteResource: nat, writeResource: nat,
    deleteTableItem: nat, writeTableItem: nat)

  function CountType(cs: seq<IncompleteChange>, t: ChangeType): (n: nat)
    ensures n <= |cs|
  {
    if cs == [] then 0
    else CountType(cs[..|cs| - 1], t) + (if cs[|cs| - 1].changeType == t then 1 else 0)
  }

  function Aggregate(cs: seq<IncompleteChange>): ChangesAggregate {
    ChangesAggregate(|cs|, CountType(cs, DeleteModule), CountType(cs, WriteModule), CountType(cs, DeleteResource),
                     CountType(cs, WriteResource), CountType(cs, DeleteTableItem), CountType(cs, WriteTableItem))
  }

  /** The aggregate fails exactly on a change of unspecified type. */
  function CalculateAggregate(cs: seq<IncompleteChange>): Result<ChangesAggregate, ExtractError> {
    if CountType(cs, Unspecified) == 0 then Success(Aggregate(cs)) else Failure(UnaccountedForChanges({Unspecified}))
  }

  function Entry(counts: map<ChangeType, nat>, t: ChangeType): nat {
    if t in counts then counts[t] else 0
  }

  const AccountedTypes: set<ChangeType> :=
    {DeleteModule, WriteModule, DeleteResource, WriteResource, DeleteTableItem, WriteTableItem}

  lemma {:induction false} LeftOver(counts: map<ChangeType, nat>, n: nat)
    requires Entry(counts, Unspecified) == n
    requires forall t :: t in counts ==> counts[t] > 0
    ensures |counts - AccountedTypes| == 0 <==> n == 0
    ensures n > 0 ==> (counts - AccountedTypes).Keys == {Unspecified}
  {
    var rest := counts - AccountedTypes;
    assert forall t :: t in rest ==> t == Unspecified;
    if n > 0 {
      assert Unspecified in rest && rest.Keys == {Unspecified};
    } else {
      assert rest == map[];
    }
  }

  /** `calculate_changes_aggregate` as written: count into a map, remove the six known types, look at what is left. */
  method CalculateChangesAggregate(cs: seq<IncompleteChange>) returns (r: Result<ChangesAggregate, ExtractError>)
    ensures r == CalculateAggregate(cs)
  {
    var counts: map<ChangeType, nat> := map[];
    for i := 0 to |cs|
      invariant forall t :: Entry(counts, t) == CountType(cs[..i], t)
      invariant forall t :: t in counts ==> counts[t] > 0
    {
      assert cs[..i + 1][..i] == cs[..i];
      var t := cs[i].changeType;
      counts := counts[t := Entry(counts, t) + 1];
    }
    assert cs[..|cs|] == cs;
    LeftOver(counts, CountType(cs, Unspecified));
    hide CountType;
    var agg := ChangesAggregate(|cs|, Entry(counts, DeleteModule), Entry(counts, WriteModule), Entry(counts, DeleteResource),
                                Entry(counts, WriteResource), Entry(counts, DeleteTableItem), Entry(counts, WriteTableItem));
    counts := counts - AccountedTypes;
    if |counts| == 0 {
      return Success(agg);
    }
    return Failure(UnaccountedForChanges(counts.Keys));
  }

  // Rows

  datatype ChangeRow = ChangeRow(index: nat, changeType: ChangeType, address: string, hash: string)
  datatype ModuleRow = ModuleRow(index: nat, address: string, abi: Option<string>)
  datatype ResourceRow = ResourceRow(index: nat, changeType: ChangeType, address: string, hash: string, structTag: Option<StructTagOut>)
  datatype TableItemRow =
    TableItemRow(index: nat, changeType: ChangeType, address: string, hash: string, key: string, value: Option<string>)

  /** The struct tag in its structured output form. */
  datatype StructTagOut = StructTagOut(address: string, moduleName: string, name: string, params: seq<string>)

  datatype ChangeError =
    | UnspecifiedType
    | InvalidChangeTypeForRecord(changeType: ChangeType)
    | BadAddress(address: Address.AddressErrorType)
    | BadStructTag(structTag: MoveTypes.StructTagError)
    | BadModule(cause: string)

  datatype ChangeRecords = ChangeRecords(
    changes: seq<ChangeRow>, resources: seq<ResourceRow>, modules: seq<ModuleRow>, tableItems: seq<TableItemRow>)

  const NoRecords := ChangeRecords([], [], [], [])

  function EncodeStructTagOut(t: MoveTypes.StructTag): Result<StructTagOut, ChangeError> {
    match Address.Fixed(t.address)
    case Failure(e) => Failure(BadStructTag(MoveTypes.InAddress(e)))
    case Success(address) =>
      match MoveTypes.EncodeAll(t.params)
      case Failure(e) => Failure(BadStructTag(MoveTypes.InMoveType(e)))
      case Success(params) => Success(StructTagOut(address, t.moduleName, t.name, params))
  }

  function EncodeOptionalTag(t: Option<MoveTypes.StructTag>): (r: Result<Option<StructTagOut>, ChangeError>)
    ensures r.Failure? ==> r.error.BadStructTag?
  {
    if t.None? then Success(None)
    else
      var out :- EncodeStructTagOut(t.value);
      Success(Some(out))
  }

  function EncodeAbi(abi: Option<EncodedAbi>): (r: Result<Option<string>, ChangeError>)
    ensures r.Failure? ==> r.error.BadModule?
  {
    match abi
    case None => Success(None)
    case Some(Failure(e)) => Failure(BadModule(e))
    case Some(Success(s)) => Success(Some(s))
  }

  /** One iteration of `get_changes`: a row of the changes table and one row of a sub-table. */
  function AddChange(r: ChangeRecords, index: nat, c: IncompleteChange): Result<ChangeRecords, ChangeError> {
    if c.changeType.Unspecified? then Failure(UnspecifiedType)
    else
      var address :- Address.Fixed(c.address).MapFailure(e => BadAddress(e));
      var r' := r.(changes := r.changes + [ChangeRow(index, c.changeType, address, c.hash)]);
      match c
      case Module(_, _, _, abi) =>
        var out :- EncodeAbi(abi);
        Success(r'.(modules := r.modules + [ModuleRow(index, address, out)]))
      case Resource(t, _, hash, tag) =>
        if !(t.WriteResource? || t.DeleteResource?) then Failure(InvalidChangeTypeForRecord(t))
        else
          var out :- EncodeOptionalTag(tag);
          Success(r'.(resources := r.resources + [ResourceRow(index, t, address, hash, out)]))
      case TableItem(t, _, hash, key, value) =>
        if !(t.WriteTableItem? || t.DeleteTableItem?) then Failure(InvalidChangeTypeForRecord(t))
        else Success(r'.(tableItems := r.tableItems + [TableItemRow(index, t, address, hash, key, value)]))
  }

  function ChangesOf(cs: seq<IncompleteChange>): Result<ChangeRecords, ChangeError> {
    if cs == [] then Success(NoRecords)
    else
      var before :- ChangesOf(cs[..|cs| - 1]);
      AddChange(before, |cs| - 1, cs[|cs| - 1])
  }

  /** The loop of `get_changes`. */
  method PushChanges(cs: seq<IncompleteChange>) returns (r: Result<ChangeRecords, ChangeError>)
    ensures r == ChangesOf(cs)
  {
    var records := NoRecords;
    for i := 0 to |cs|
      invariant ChangesOf(cs[..i]) == Success(records)
    {
      assert cs[..i + 1][..i] == cs[..i];
      ChangesFailureStays(cs, i + 1);
      var next := AddChange(records, i, cs[i]);
      if next.Failure? {
        return next;
      }
      records := next.value;
    }
    assert cs[..|cs|] == cs;
    return Success(records);
  }

  lemma {:induction false} ChangesFailureStays(cs: seq<IncompleteChange>, i: nat)
    requires i <= |cs|
    ensures ChangesOf(cs[..i]).Failure? ==> ChangesOf(cs) == ChangesOf(cs[..i])
    decreases |cs| - i
  {
    hide AddChange;
    if i < |cs| {
      ChangesFailureStays(cs, i + 1);
      assert cs[..i + 1][..i] == cs[..i];
    } else {
      assert cs[..i] == cs;
    }
  }

  // The sub-tables partition the changes

  datatype SubRow = OfResource(resource: ResourceRow) | OfModule(moduleRow: ModuleRow) | OfTableItem(item: TableItemRow)

  function SubIndex(s: SubRow): nat {
    match s
    case OfResource(r) => r.index
    case OfModule(m) => m.index
    case OfTableItem(t) => t.index
  }

  /** The sub-row and the changes row tell of the same change. */
  predicate Describes(s: SubRow, c: ChangeRow) {
    match s
    case OfResource(r) =>
      r.index == c.index && r.address == c.address && r.hash == c.hash && r.changeType == c.changeType
      && (c.changeType.WriteResource? || c.changeType.DeleteResource?)
    case OfModule(m) =>
      m.index == c.index && m.address == c.address && (c.changeType.WriteModule? || c.changeType.DeleteModule?)
    case OfTableItem(t) =>
      t.index == c.index && t.address == c.address && t.hash == c.hash && t.changeType == c.changeType
      && (c.changeType.WriteTableItem? || c.changeType.DeleteTableItem?)
  }

  predicate TakesResource(rs: seq<ResourceRow>, ms: seq<ModuleRow>, ts: seq<TableItemRow>) {
    rs != []
    && (ms != [] ==> ms[|ms| - 1].index <= rs[|rs| - 1].index)
    && (ts != [] ==> ts[|ts| - 1].index <= rs[|rs| - 1].index)
  }

  predicate TakesModule(ms: seq<ModuleRow>, ts: seq<TableItemRow>) {
    ms != [] && (ts != [] ==> ts[|ts| - 1].index <= ms[|ms| - 1].index)
  }

  /** Merges the three sub-tables by change index, largest last. */
  function Merge(rs: seq<ResourceRow>, ms: seq<ModuleRow>, ts: seq<TableItemRow>): (out: seq<SubRow>)
    ensures |out| == |rs| + |ms| + |ts|
    decreases |rs| + |ms| + |ts|
  {
    if TakesResource(rs, ms, ts) then Merge(rs[..|rs| - 1], ms, ts) + [OfResource(rs[|rs| - 1])]
    else if TakesModule(ms, ts) then Merge(rs, ms[..|ms| - 1], ts) + [OfModule(ms[|ms| - 1])]
    else if ts != [] then Merge(rs, ms, ts[..|ts| - 1]) + [OfTableItem(ts[|ts| - 1])]
    else []
  }

  function Merged(r: ChangeRecords): seq<SubRow> {
    Merge(r.resources, r.modules, r.tableItems)
  }

  function ResourcesIn(ms: seq<SubRow>): seq<ResourceRow> {
    if ms == [] then []
    else
      var last := ms[|ms| - 1];
      ResourcesIn(ms[..|ms| - 1]) + (if last.OfResource? then [last.resource] else [])
  }

  function ModulesIn(ms: seq<SubRow>): seq<ModuleRow> {
    if ms == [] then []
    else
      var last := ms[|ms| - 1];
      ModulesIn(ms[..|ms| - 1]) + (if last.OfModule? then [last.moduleRow] else [])
  }

  function TableItemsIn(ms: seq<SubRow>): seq<TableItemRow> {
    if ms == [] then []
    else
      var last := ms[|ms| - 1];
      TableItemsIn(ms[..|ms| - 1]) + (if last.OfTableItem? then [last.item] else [])
  }

  lemma {:induction false} SubRowsPush(ms: seq<SubRow>, s: SubRow)
    ensures ResourcesIn(ms + [s]) == ResourcesIn(ms) + (if s.OfResource? then [s.resource] else [])
    ensures ModulesIn(ms + [s]) == ModulesIn(ms) + (if s.OfModule? then [s.moduleRow] else [])
    ensures TableItemsIn(ms + [s]) == TableItemsIn(ms) + (if s.OfTableItem? then [s.item] else [])
  {
    assert (ms + [s])[..|ms|] == ms;
  }

  /** Merging loses and invents nothing: each sub-table is read back from the merge, in order. */
  lemma {:induction false} MergeKeepsRows(rs: seq<ResourceRow>, ms: seq<ModuleRow>, ts: seq<TableItemRow>)
    ensures ResourcesIn(Merge(rs, ms, ts)) == rs
    ensures ModulesIn(Merge(rs, ms, ts)) == ms
    ensures TableItemsIn(Merge(rs, ms, ts)) == ts
    decreases |rs| + |ms| + |ts|
  {
    hide ResourcesIn, ModulesIn, TableItemsIn, Merge;
    MergeUnfolds(rs, ms, ts);
    if TakesResource(rs, ms, ts) {
      MergeKeepsRows(rs[..|rs| - 1], ms, ts);
      SubRowsPush(Merge(rs[..|rs| - 1], ms, ts), OfResource(rs[|rs| - 1]));
    } else if TakesModule(ms, ts) {
      MergeKeepsRows(rs, ms[..|ms| - 1], ts);
      SubRowsPush(Merge(rs, ms[..|ms| - 1], ts), OfModule(ms[|ms| - 1]));
    } else if ts != [] {
      MergeKeepsRows(rs, ms, ts[..|ts| - 1]);
      SubRowsPush(Merge(rs, ms, ts[..|ts| - 1]), OfTableItem(ts[|ts| - 1]));
    } else {
      NoSubRows();
    }
  }

  lemma {:induction false} MergeUnfolds(rs: seq<ResourceRow>, ms: seq<ModuleRow>, ts: seq<TableItemRow>)
    ensures Merge(rs, ms, ts) ==
      if TakesResource(rs, ms, ts) then Merge(rs[..|rs| - 1], ms, ts) + [OfResource(rs[|rs| - 1])]
      else if TakesModule(ms, ts) then Merge(rs, ms[..|ms| - 1], ts) + [OfModule(ms[|ms| - 1])]
      else if ts != [] then Merge(rs, ms, ts[..|ts| - 1]) + [OfTableItem(ts[|ts| - 1])]
      else []
  {
  }

  lemma {:induction false} NoSubRows()
    ensures ResourcesIn([]) == [] && ModulesIn([]) == [] && TableItemsIn([]) == []
  {
  }

  /** Every sub-row's index is below the number of changes so far. */
  predicate Bounded(r: ChangeRecords) {
    && (forall i :: 0 <= i < |r.resources| ==> r.resources[i].index < |r.changes|)
    && (forall i :: 0 <= i < |r.modules| ==> r.modules[i].index < |r.changes|)
    && (forall i :: 0 <= i < |r.tableItems| ==> r.tableItems[i].index < |r.changes|)
  }

  predicate MergesBack(r: ChangeRecords, n: nat) {
    && |r.changes| == n == |Merged(r)|
    && forall i :: 0 <= i < n ==> r.changes[i].index == i && Describes(Merged(r)[i], r.changes[i])
  }

  lemma {:induction false} MergePush(r: ChangeRecords, s: SubRow)
    requires Bounded(r) && SubIndex(s) == |r.changes|
    ensures s.OfResource? ==> Merge(r.resources + [s.resource], r.modules, r.tableItems) == Merged(r) + [s]
    ensures s.OfModule? ==> Merge(r.resources, r.modules + [s.moduleRow], r.tableItems) == Merged(r) + [s]
    ensures s.OfTableItem? ==> Merge(r.resources, r.modules, r.tableItems + [s.item]) == Merged(r) + [s]
  {
    match s
    case OfResource(row) =>
      var rows := r.resources + [row];
      assert rows[..|rows| - 1] == r.resources;
    case OfModule(row) =>
      var rows := r.modules + [row];
      assert rows[..|rows| - 1] == r.modules;
    case OfTableItem(row) =>
      var rows := r.tableItems + [row];
      assert rows[..|rows| - 1] == r.tableItems;
  }

  /** The sub-row AddChange appends. */
  function SubRowOf(r: ChangeRecords, c: IncompleteChange): SubRow
    requires WellTyped(c) && AddChange(r, |r.changes|, c).Success?
  {
    var r' := AddChange(r, |r.changes|, c).value;
    match c
    case Module(_, _, _, _) => OfModule(r'.modules[|r.modules|])
    case Resource(_, _, _, _) => OfResource(r'.resources[|r.resources|])
    case TableItem(_, _, _, _, _) => OfTableItem(r'.tableItems[|r.tableItems|])
  }

  lemma {:induction false} AddedRow(r: ChangeRecords, c: IncompleteChange)
    requires Bounded(r) && WellTyped(c) && AddChange(r, |r.changes|, c).Success?
    ensures
      var r', s, n := AddChange(r, |r.changes|, c).value, SubRowOf(r, c), |r.changes|;
      && Bounded(r') && |r'.changes| == n + 1 && r'.changes[..n] == r.changes
      && r'.changes[n].index == n && r'.changes[n].changeType == c.changeType
      && Success(r'.changes[n].address) == Address.Fixed(c.address)
      && Describes(s, r'.changes[n]) && SubIndex(s) == n
  {
    hide Address.Fixed, EncodeOptionalTag, EncodeAbi;
  }

  lemma {:induction false} AddedRowMergesLast(r: ChangeRecords, c: IncompleteChange)
    requires Bounded(r) && WellTyped(c) && AddChange(r, |r.changes|, c).Success?
    ensures Merged(AddChange(r, |r.changes|, c).value) == Merged(r) + [SubRowOf(r, c)]
  {
    hide Address.Fixed, EncodeOptionalTag, EncodeAbi, Merge;
    AddedRow(r, c);
    MergePush(r, SubRowOf(r, c));
  }

  /** The rows of the sub-tables, merged by index, are the changes table row by row. */
  lemma {:induction false} SubTablesPartitionChanges(cs: seq<IncompleteChange>)
    requires AllWellTyped(cs) && ChangesOf(cs).Success?
    ensures Bounded(ChangesOf(cs).value) && MergesBack(ChangesOf(cs).value, |cs|)
    ensures forall i :: 0 <= i < |cs| ==>
      && ChangesOf(cs).value.changes[i].changeType == cs[i].changeType
      && Success(ChangesOf(cs).value.changes[i].address) == Address.Fixed(cs[i].address)
  {
    hide Address.Fixed, AddChange, Merge, SubRowOf;
    if cs != [] {
      var n := |cs| - 1;
      SubTablesPartitionChanges(cs[..n]);
      AddedRow(ChangesOf(cs[..n]).value, cs[n]);
      AddedRowMergesLast(ChangesOf(cs[..n]).value, cs[n]);
    }
  }

  predicate Encodable(c: IncompleteChange) {
    && Address.Fixed(c.address).Success?
    && (c.Module? ==> EncodeAbi(c.abi).Success?)
    && (c.Resource? ==> EncodeOptionalTag(c.structTag).Success?)
  }

  /** On changes that passed extraction, only an address, struct tag or ABI can fail. */
  lemma {:induction false} ChangesSucceedExactly(cs: seq<IncompleteChange>)
    requires AllWellTyped(cs)
    ensures ChangesOf(cs).Success? <==> forall i :: 0 <= i < |cs| ==> Encodable(cs[i])
    ensures ChangesOf(cs).Failure? ==> !ChangesOf(cs).error.InvalidChangeTypeForRecord? && !ChangesOf(cs).error.UnspecifiedType?
  {
    hide Address.Fixed, EncodeOptionalTag, EncodeAbi;
    if cs != [] {
      var n := |cs| - 1;
      ChangesSucceedExactly(cs[..n]);
      assert ChangesOf(cs[..n]).Success? ==> forall i :: 0 <= i < n ==> Encodable(cs[..n][i]);
      assert cs[n] == cs[|cs| - 1];
      if ChangesOf(cs[..n]).Failure? {
        var i :| 0 <= i < n && !Encodable(cs[..n][i]);
        assert !Encodable(cs[i]);
      }
    }
  }

  function CountResources(rs: seq<ResourceRow>, t: ChangeType): nat {
    if rs == [] then 0 else CountResources(rs[..|rs| - 1], t) + (if rs[|rs| - 1].changeType == t then 1 else 0)
  }

  function CountTableItems(rs: seq<TableItemRow>, t: ChangeType): nat {
    if rs == [] then 0 else CountTableItems(rs[..|rs| - 1], t) + (if rs[|rs| - 1].changeType == t then 1 else 0)
  }

  predicate CountsRows(agg: ChangesAggregate, r: ChangeRecords) {
    && agg.total == |r.changes|
    && agg.total == agg.deleteModule + agg.writeModule + agg.deleteResource + agg.writeResource
                  + agg.deleteTableItem + agg.writeTableItem
    && agg.deleteModule + agg.writeModule == |r.modules|
    && agg.deleteResource == CountResources(r.resources, DeleteResource)
    && agg.writeResource == CountResources(r.resources, WriteResource)
    && agg.deleteResource + agg.writeResource == |r.resources|
    && agg.deleteTableItem == CountTableItems(r.tableItems, DeleteTableItem)
    && agg.writeTableItem == CountTableItems(r.tableItems, WriteTableItem)
    && agg.deleteTableItem + agg.writeTableItem == |r.tableItems|
  }

  /** The six counts of the aggregate, and their total, are the numbers of rows emitted. */
  lemma {:induction false} AggregateCountsRows(cs: seq<IncompleteChange>)
    requires AllWellTyped(cs) && ChangesOf(cs).Success?
    ensures CountsRows(Aggregate(cs), ChangesOf(cs).value)
  {
    hide AddChange, CountsRows, Aggregate;
    if cs == [] {
      EmptyAggregate(cs);
      NothingCounted(NoRecords);
    } else {
      var n := |cs| - 1;
      AggregateCountsRows(cs[..n]);
      AggregateStep(cs, ChangesOf(cs[..n]).value, ChangesOf(cs).value);
    }
  }

  const NoCounts := ChangesAggregate(0, 0, 0, 0, 0, 0, 0)

  lemma {:induction false} EmptyAggregate(cs: seq<IncompleteChange>)
    requires |cs| == 0
    ensures Aggregate(cs) == NoCounts
  {
  }

  lemma {:induction false} NothingCounted(r: ChangeRecords)
    requires |r.changes| == 0 && |r.modules| == 0 && |r.resources| == 0 && |r.tableItems| == 0
    ensures CountsRows(NoCounts, r)
  {
  }

  lemma {:induction false} AggregateStep(cs: seq<IncompleteChange>, before: ChangeRecords, after: ChangeRecords)
    requires cs != [] && WellTyped(cs[|cs| - 1]) && AddChange(before, |cs| - 1, cs[|cs| - 1]) == Success(after)
    requires CountsRows(Aggregate(cs[..|cs| - 1]), before)
    ensures CountsRows(Aggregate(cs), after)
  {
    hide Address.Fixed, EncodeOptionalTag, EncodeAbi;
    if cs[|cs| - 1].Resource? {
      assert after.resources[..|after.resources| - 1] == before.resources;
    }
    if cs[|cs| - 1].TableItem? {
      assert after.tableItems[..|after.tableItems| - 1] == before.tableItems;
    }
  }

  /** On extracted changes the aggregate is always computed: no change is of unspecified type. */
  lemma {:induction false} NothingUnaccounted(cs: seq<IncompleteChange>)
    requires AllWellTyped(cs)
    ensures CalculateAggregate(cs) == Success(Aggregate(cs))
  {
    if cs != [] {
      NothingUnaccounted(cs[..|cs| - 1]);
    }
  }

  /** The change indices of every sub-table ascend, so no two rows of one share an index. */
  predicate IndicesAscend(r: ChangeRecords) {
    && (forall i, j :: 0 <= i < j < |r.resources| ==> r.resources[i].index < r.resources[j].index)
    && (forall i, j :: 0 <= i < j < |r.modules| ==> r.modules[i].index < r.modules[j].index)
    && (forall i, j :: 0 <= i < j < |r.tableItems| ==> r.tableItems[i].index < r.tableItems[j].index)
  }

  lemma {:induction false} SubTablesAscend(cs: seq<IncompleteChange>)
    requires AllWellTyped(cs) && ChangesOf(cs).Success?
    ensures Bounded(ChangesOf(cs).value) && IndicesAscend(ChangesOf(cs).value)
  {
    hide Address.Fixed, AddChange;
    if cs != [] {
      var n := |cs| - 1;
      SubTablesAscend(cs[..n]);
      SubTablesPartitionChanges(cs[..n]);
      AddedRowAscends(ChangesOf(cs[..n]).value, cs[n]);
    }
  }

  lemma {:induction false} AddedRowAscends(r: ChangeRecords, c: IncompleteChange)
    requires Bounded(r) && IndicesAscend(r) && WellTyped(c) && AddChange(r, |r.changes|, c).Success?
    ensures Bounded(AddChange(r, |r.changes|, c).value) && IndicesAscend(AddChange(r, |r.changes|, c).value)
  {
    hide Address.Fixed, EncodeOptionalTag, EncodeAbi;
  }
}
