/** What the changes tables hold, said of the write set itself (reps/changes.rs, reps/transaction/tx_info.rs, tables/changes.rs). */
module WriteSetLaws {
  import opened Wrappers
  import Address
  import MoveTypes
  import opened Changes

  /** The account a change is about: its address, or the handle of its table. */
  function Subject(d: ChangeData): string {
    if d.DeleteTableItemData? || d.WriteTableItemData? then d.handle else d.address
  }

  predicate TagDecodes(tag: Option<MoveTypes.StructTag>) {
    tag.Some? ==> forall i :: 0 <= i < |tag.value.params| ==> tag.value.params[i].rawTag.Known?
  }

  /** The change's type is that of its data, and nothing the type needs is missing. */
  predicate Agrees(w: WriteSetChange) {
    w.change.Some? &&
    match w.change.value
    case DeleteModuleData(_, _) => w.changeType == DeleteModule
    case WriteModuleData(_, _, bytecode) => w.changeType == WriteModule && bytecode.Some?
    case DeleteResourceData(_, _, tag) => w.changeType == DeleteResource && TagDecodes(tag)
    case WriteResourceData(_, _, tag) => w.changeType == WriteResource && TagDecodes(tag)
    case DeleteTableItemData(_, _, key) => w.changeType == DeleteTableItem && key.Some?
    case WriteTableItemData(_, _, keyAndValue) => w.changeType == WriteTableItem && keyAndValue.Some?
  }

  /** The text without its quotation marks: a pair of them goes, or a lone closing one; a lone opening one stays. */
  predicate Unquotes(bare: string, text: string) {
    || text == "\"" + bare + "\""
    || (text == bare + "\"" && bare != "" && bare[0] != '"')
    || (text == bare && (bare == "" || bare == "\"" || bare[|bare| - 1] != '"'))
  }

  /** Every text is in one of those cases, and only one. */
  lemma {:induction false} StripsExactly(text: string, bare: string)
    ensures Unquotes(bare, text) <==> bare == StripQuotes(text)
  {
    var inner := if text != "" && text[0] == '"' then text[1..] else text;
    if inner != "" && inner[|inner| - 1] == '"' {
      assert inner == inner[..|inner| - 1] + "\"";
    }
    if text == "\"" + bare + "\"" {
      assert text[1..] == bare + "\"";
      assert text[1..][..|bare|] == bare;
    }
    if text == bare + "\"" {
      assert text[..|bare|] == bare;
    }
    if text != "" && text[0] == '"' {
      assert text == "\"" + text[1..];
    }
  }

  /** The record says of the change what the change says of itself. */
  predicate Keeps(w: WriteSetChange, c: IncompleteChange) {
    && w.change.Some? && c.changeType == w.changeType && c.address == Subject(w.change.value) && c.hash == w.change.value.hash
    && match w.change.value
       case DeleteModuleData(_, _) => c.Module? && c.abi.None?
       case WriteModuleData(_, _, bytecode) => c.Module? && Some(c.abi) == bytecode
       case DeleteResourceData(_, _, tag) => c.Resource? && c.structTag == tag
       case WriteResourceData(_, _, tag) => c.Resource? && c.structTag == tag
       case DeleteTableItemData(_, _, key) => c.TableItem? && key.Some? && Unquotes(c.key, key.value) && c.value.None?
       case WriteTableItemData(_, _, keyAndValue) =>
         c.TableItem? && keyAndValue.Some? && Unquotes(c.key, keyAndValue.value.0)
         && c.value.Some? && Unquotes(c.value.value, keyAndValue.value.1)
  }

  lemma {:induction false} DecodeExactly(params: seq<MoveTypes.MoveType>)
    ensures MoveTypes.DecodeParams(params).Success? <==> forall i :: 0 <= i < |params| ==> params[i].rawTag.Known?
  {
    if params != [] {
      DecodeExactly(params[1..]);
      assert forall i :: 0 < i < |params| ==> params[i] == params[1..][i - 1];
    }
  }

  lemma {:induction false} TagDecodesExactly(tag: Option<MoveTypes.StructTag>)
    ensures DecodeStructTag(tag).Success? <==> TagDecodes(tag)
    ensures TagDecodes(tag) ==> DecodeStructTag(tag).value == tag
  {
    if tag.Some? {
      DecodeExactly(tag.value.params);
    }
  }

  lemma {:induction false} ChangeConvertsExactly(w: WriteSetChange)
    ensures TryFrom(w).Success? <==> Agrees(w)
    ensures Agrees(w) ==> Keeps(w, TryFrom(w).value)
  {
    hide DecodeStructTag, TagDecodes, StripQuotes, Unquotes;
    match w.change
    case Some(DeleteTableItemData(_, _, key)) =>
      if key.Some? {
        StripsExactly(key.value, StripQuotes(key.value));
      }
    case Some(WriteTableItemData(_, _, keyAndValue)) =>
      if keyAndValue.Some? {
        StripsExactly(keyAndValue.value.0, StripQuotes(keyAndValue.value.0));
        StripsExactly(keyAndValue.value.1, StripQuotes(keyAndValue.value.1));
      }
    case Some(DeleteResourceData(_, _, tag)) => TagDecodesExactly(tag);
    case Some(WriteResourceData(_, _, tag)) => TagDecodesExactly(tag);
    case _ =>
  }

  /** The write set converts exactly when every change's type and data agree, and record i keeps what change i says. */
  lemma {:induction false} WriteSetConvertsExactly(ws: seq<WriteSetChange>)
    ensures ExtractChanges(ws).Success? <==> forall i :: 0 <= i < |ws| ==> Agrees(ws[i])
    ensures ExtractChanges(ws).Success? ==> forall i :: 0 <= i < |ws| ==> Keeps(ws[i], ExtractChanges(ws).value[i])
  {
    hide TryFrom, Agrees, Keeps;
    if ws != [] {
      var n := |ws| - 1;
      WriteSetConvertsExactly(ws[..n]);
      ChangeConvertsExactly(ws[n]);
      assert forall i :: 0 <= i < n ==> ws[i] == ws[..n][i];
    }
  }

  /** Change k is the first whose type and data do not agree. */
  predicate FirstDisagrees(ws: seq<WriteSetChange>, k: nat) {
    k < |ws| && !Agrees(ws[k]) && forall i :: 0 <= i < k ==> Agrees(ws[i])
  }

  /** Why a change does not convert: no data at all, data of another type, or something missing inside the data. */
  predicate Blames(w: WriteSetChange, e: ExtractError) {
    match w.change
    case None => e == MissingChangeData
    case Some(WriteModuleData(_, _, _)) =>
      e == if w.changeType == WriteModule then MissingModuleBytecodeData else MismatchChangeData
    case Some(DeleteModuleData(_, _)) => e == MismatchChangeData
    case Some(DeleteResourceData(_, _, _)) =>
      if w.changeType == DeleteResource then e.StructTagDecode? else e == MismatchChangeData
    case Some(WriteResourceData(_, _, _)) =>
      if w.changeType == WriteResource then e.StructTagDecode? else e == MismatchChangeData
    case Some(DeleteTableItemData(_, _, _)) =>
      e == if w.changeType == DeleteTableItem then MissingTableData else MismatchChangeData
    case Some(WriteTableItemData(_, _, _)) =>
      e == if w.changeType == WriteTableItem then MissingTableData else MismatchChangeData
  }

  /** Otherwise the error is that of the first change that does not agree. */
  lemma {:induction false} FirstDisagreementIsBlamed(ws: seq<WriteSetChange>)
    requires ExtractChanges(ws).Failure?
    ensures exists k: nat :: FirstDisagrees(ws, k) && Blames(ws[k], ExtractChanges(ws).error)
  {
    hide Agrees, Blames;
    var n := |ws| - 1;
    WriteSetConvertsExactly(ws[..n]);
    assert forall i :: 0 <= i < n ==> ws[i] == ws[..n][i];
    if ExtractChanges(ws[..n]).Failure? {
      FirstDisagreementIsBlamed(ws[..n]);
      var k: nat :| FirstDisagrees(ws[..n], k) && Blames(ws[..n][k], ExtractChanges(ws[..n]).error);
      assert FirstDisagrees(ws, k) && Blames(ws[k], ExtractChanges(ws).error);
    } else {
      ChangeConvertsExactly(ws[n]);
      FailureBlames(ws[n]);
      assert FirstDisagrees(ws, n) && Blames(ws[n], ExtractChanges(ws).error);
    }
  }

  lemma {:induction false} FailureBlames(w: WriteSetChange)
    requires TryFrom(w).Failure?
    ensures Blames(w, TryFrom(w).error)
  {
    hide MoveTypes.DecodeParams;
  }

  // Counts

  function Number(ws: seq<WriteSetChange>, t: ChangeType): nat {
    if ws == [] then 0 else Number(ws[..|ws| - 1], t) + (if ws[|ws| - 1].changeType == t then 1 else 0)
  }

  lemma {:induction false} CountsEntries(ws: seq<WriteSetChange>, t: ChangeType)
    requires ExtractChanges(ws).Success?
    ensures CountType(ExtractChanges(ws).value, t) == Number(ws, t)
  {
    hide TryFrom;
    if ws != [] {
      var n := |ws| - 1;
      var cs := ExtractChanges(ws).value;
      CountsEntries(ws[..n], t);
      ChangeConvertsExactly(ws[n]);
      assert cs[..n] == ExtractChanges(ws[..n]).value;
    }
  }

  /** The counts on a transactions row are the numbers of the write set's changes of each type. */
  lemma {:induction false} AggregateCountsWriteSet(ws: seq<WriteSetChange>)
    requires ExtractChanges(ws).Success?
    ensures CalculateAggregate(ExtractChanges(ws).value) == Success(ChangesAggregate(
      |ws|, Number(ws, DeleteModule), Number(ws, WriteModule), Number(ws, DeleteResource), Number(ws, WriteResource),
      Number(ws, DeleteTableItem), Number(ws, WriteTableItem)))
  {
    NothingUnaccounted(ExtractChanges(ws).value);
    hide CountType, ExtractChanges, Number, CalculateAggregate;
    CountsEntries(ws, DeleteModule);
    CountsEntries(ws, WriteModule);
    CountsEntries(ws, DeleteResource);
    CountsEntries(ws, WriteResource);
    CountsEntries(ws, DeleteTableItem);
    CountsEntries(ws, WriteTableItem);
  }

  // Rows

  /** A struct tag's columns, put together, are its printed form. */
  predicate Prints(out: StructTagOut, tag: MoveTypes.StructTag) {
    && Success(out.address) == Address.Fixed(tag.address) && out.moduleName == tag.moduleName && out.name == tag.name
    && MoveTypes.EncodeAll(tag.params) == Success(out.params)
    && (MoveTypes.DecodeParams(tag.params).Success? ==>
          MoveTypes.EncodeStructTag(tag)
            == Success(out.address + "::" + out.moduleName + "::" + out.name + MoveTypes.Generics(out.params)))
  }

  predicate TagPrints(out: Option<StructTagOut>, tag: Option<MoveTypes.StructTag>) {
    (out.Some? <==> tag.Some?) && (tag.Some? ==> Prints(out.value, tag.value))
  }

  /** Sub-row i and change i of the write set tell of the same module, resource or table item. */
  predicate Tells(s: SubRow, i: nat, w: WriteSetChange, address: string) {
    w.change.Some? &&
    match w.change.value
    case DeleteModuleData(_, _) => s == OfModule(ModuleRow(i, address, None))
    case WriteModuleData(_, _, bytecode) =>
      s.OfModule? && s.moduleRow.index == i && s.moduleRow.address == address && bytecode.Some?
      && (if bytecode.value.None? then s.moduleRow.abi.None?
          else s.moduleRow.abi.Some? && bytecode.value.value == Success(s.moduleRow.abi.value))
    case DeleteResourceData(_, hash, tag) =>
      s.OfResource? && s == OfResource(ResourceRow(i, DeleteResource, address, hash, s.resource.structTag))
      && TagPrints(s.resource.structTag, tag)
    case WriteResourceData(_, hash, tag) =>
      s.OfResource? && s == OfResource(ResourceRow(i, WriteResource, address, hash, s.resource.structTag))
      && TagPrints(s.resource.structTag, tag)
    case DeleteTableItemData(_, hash, key) =>
      key.Some? && s.OfTableItem? && s == OfTableItem(TableItemRow(i, DeleteTableItem, address, hash, s.item.key, None))
      && Unquotes(s.item.key, key.value)
    case WriteTableItemData(_, hash, keyAndValue) =>
      keyAndValue.Some? && s.OfTableItem? && s.item.value.Some?
      && s == OfTableItem(TableItemRow(i, WriteTableItem, address, hash, s.item.key, s.item.value))
      && Unquotes(s.item.key, keyAndValue.value.0) && Unquotes(s.item.value.value, keyAndValue.value.1)
  }

  lemma {:induction false} TagOutPrints(tag: Option<MoveTypes.StructTag>)
    requires EncodeOptionalTag(tag).Success?
    ensures TagPrints(EncodeOptionalTag(tag).value, tag)
  {
    hide Address.Fixed, MoveTypes.EncodeAll, MoveTypes.DecodeParams, MoveTypes.Generics;
  }

  lemma {:induction false} AddedRowTells(r: ChangeRecords, w: WriteSetChange, c: IncompleteChange)
    requires Bounded(r) && WellTyped(c) && Keeps(w, c) && Agrees(w) && AddChange(r, |r.changes|, c).Success?
    ensures
      var row := AddChange(r, |r.changes|, c).value.changes[|r.changes|];
      && row.index == |r.changes| && row.changeType == w.changeType && row.hash == w.change.value.hash
      && Success(row.address) == Address.Fixed(Subject(w.change.value))
      && Tells(SubRowOf(r, c), |r.changes|, w, row.address)
  {
    hide Address.Fixed, EncodeOptionalTag, TagPrints, Unquotes;
    if c.Resource? {
      TagOutPrints(c.structTag);
    }
  }

  /** Row i of the changes table is change i of the write set: its type, its account in repaired form and its hash. */
  predicate RowTells(row: ChangeRow, i: nat, w: WriteSetChange) {
    && w.change.Some? && row.index == i && row.changeType == w.changeType && row.hash == w.change.value.hash
    && Success(row.address) == Address.Fixed(Subject(w.change.value))
  }

  /** The changes table and the three sub-tables, merged by index, tell the write set change by change. */
  ghost predicate TellWriteSet(r: ChangeRecords, ws: seq<WriteSetChange>) {
    && Bounded(r) && |r.changes| == |ws| == |Merged(r)|
    && forall i :: 0 <= i < |ws| ==> RowTells(r.changes[i], i, ws[i]) && Tells(Merged(r)[i], i, ws[i], r.changes[i].address)
  }

  lemma {:induction false} AddedTells(r: ChangeRecords, w: WriteSetChange, c: IncompleteChange)
    requires Bounded(r) && WellTyped(c) && Keeps(w, c) && Agrees(w) && AddChange(r, |r.changes|, c).Success?
    ensures |AddChange(r, |r.changes|, c).value.changes| == |r.changes| + 1
    ensures
      var row := AddChange(r, |r.changes|, c).value.changes[|r.changes|];
      RowTells(row, |r.changes|, w) && Tells(SubRowOf(r, c), |r.changes|, w, row.address)
  {
    hide Tells, SubRowOf, WellTyped, AddChange, Keeps;
    AddedRow(r, c);
    AddedRowTells(r, w, c);
  }

  lemma {:induction false} AddedTellsAll(r: ChangeRecords, ws: seq<WriteSetChange>, c: IncompleteChange)
    requires ws != [] && TellWriteSet(r, ws[..|ws| - 1])
    requires WellTyped(c) && Keeps(ws[|ws| - 1], c) && Agrees(ws[|ws| - 1]) && AddChange(r, |ws| - 1, c).Success?
    ensures TellWriteSet(AddChange(r, |ws| - 1, c).value, ws)
  {
    hide AddChange, Merged, SubRowOf, RowTells, Tells, Keeps, WellTyped, Bounded;
    var n, r' := |ws| - 1, AddChange(r, |ws| - 1, c).value;
    AddedRow(r, c);
    AddedRowMergesLast(r, c);
    AddedTells(r, ws[n], c);
    forall i | 0 <= i < n ensures RowTells(r'.changes[i], i, ws[i]) && Tells(Merged(r')[i], i, ws[i], r'.changes[i].address) {
      assert ws[..n][i] == ws[i] && r'.changes[..n][i] == r'.changes[i];
    }
  }

  lemma {:induction false} NothingTold()
    ensures TellWriteSet(NoRecords, [])
  {
  }

  lemma {:induction false} TablesTellWriteSet(ws: seq<WriteSetChange>)
    requires ExtractChanges(ws).Success? && ChangesOf(ExtractChanges(ws).value).Success?
    ensures TellWriteSet(ChangesOf(ExtractChanges(ws).value).value, ws)
  {
    hide TryFrom, AddChange, Merge, RowTells, Tells, Keeps, WellTyped, TellWriteSet;
    WriteSetConvertsExactly(ws);
    var cs := ExtractChanges(ws).value;
    if ws == [] {
      NothingTold();
    } else {
      var n := |ws| - 1;
      TablesTellWriteSet(ws[..n]);
      assert cs[..n] == ExtractChanges(ws[..n]).value;
      assert WellTyped(cs[n]);
      AddedTellsAll(ChangesOf(cs[..n]).value, ws, cs[n]);
    }
  }

  /** On a write set that converts, only an account, a struct tag or an ABI can stop the rows. */
  predicate Printable(w: WriteSetChange) {
    && w.change.Some? && Address.Fixed(Subject(w.change.value)).Success?
    && match w.change.value
       case WriteModuleData(_, _, bytecode) => bytecode.Some? && (bytecode.value.Some? ==> bytecode.value.value.Success?)
       case DeleteResourceData(_, _, tag) => TagPrintable(tag)
       case WriteResourceData(_, _, tag) => TagPrintable(tag)
       case _ => true
  }

  predicate TagPrintable(tag: Option<MoveTypes.StructTag>) {
    tag.Some? ==> Address.Fixed(tag.value.address).Success? && MoveTypes.EncodeAll(tag.value.params).Success?
  }

  lemma {:induction false} PrintableExactly(w: WriteSetChange, c: IncompleteChange)
    requires Keeps(w, c) && Agrees(w)
    ensures Encodable(c) <==> Printable(w)
  {
    hide Address.Fixed, MoveTypes.EncodeAll, TagDecodes;
  }

  lemma {:induction false} RowsSucceedExactly(ws: seq<WriteSetChange>)
    requires ExtractChanges(ws).Success?
    ensures ChangesOf(ExtractChanges(ws).value).Success? <==> forall i :: 0 <= i < |ws| ==> Printable(ws[i])
  {
    hide ExtractChanges, ChangesOf, Encodable, Printable, Keeps, Agrees, AllWellTyped;
    var cs := ExtractChanges(ws).value;
    WriteSetConvertsExactly(ws);
    ChangesSucceedExactly(cs);
    forall i | 0 <= i < |ws| ensures Encodable(cs[i]) <==> Printable(ws[i]) {
      PrintableExactly(ws[i], cs[i]);
    }
  }
}
