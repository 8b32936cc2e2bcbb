/** The daily MERGE that removes duplicate rows (daily_qc_airflow/daily_dedupe_mainnet.py). */
module Dedupe {
  import opened Wrappers
  import opened Tables
  import Changes
  import Address
  import Signatures
  import SignatureRoles

  /** The columns that decide whether two rows of a table are duplicates. */
  datatype Key =
    | VersionKey(version: nat)
    | HeightKey(height: int)
    | EventKey(eventIndex: nat, version: nat)
    | ChangeKey(changeIndex: nat, version: nat)
    | SignatureKey(version: nat, signature: Option<string>, publicKey: string, keyIndex: Option<nat>, signer: string,
                   isSender: Option<bool>, isFeePayer: Option<bool>)

  function KeyOf(r: Row): Key {
    match r.fields
    case TransactionFields(_, _, _, _, _, _) => VersionKey(r.version)
    case BlockFields(height, _) => HeightKey(height)
    case ChangeFields(c) => ChangeKey(c.index, r.version)
    case ModuleFields(m) => ChangeKey(m.index, r.version)
    case ResourceFields(c) => ChangeKey(c.index, r.version)
    case TableItemFields(c) => ChangeKey(c.index, r.version)
    case EventFields(index, _, _) => EventKey(index, r.version)
    case SignatureFields(s) =>
      SignatureKey(r.version, if s.signature.Some? then Some(s.signature.value.value) else None, s.publicKey.value,
                   s.publicKey.index, s.signer, s.isSender, s.isFeePayer)
  }

  /** The day the MERGE looks at, from its first second to the next day's, both included. */
  datatype Window = Window(first: int, last: int)

  /** The row's `block_timestamp` column, a text of whole seconds, lies in the day. */
  predicate InWindow(w: Window, r: Row) {
    w.first <= EncodedSecond(r.unix) <= w.last
  }

  /** What a MERGE may leave: rows outside the window untouched, and inside it one arbitrary row for every key. */
  ghost predicate Merged(w: Window, before: multiset<Row>, after: multiset<Row>) {
    && (forall r :: !InWindow(w, r) ==> after[r] == before[r])
    && (forall r :: r in after && InWindow(w, r) ==> r in before && after[r] == 1)
    && (forall r :: r in before && InWindow(w, r) ==> Represented(w, r, after))
    && (forall r, s :: r in after && s in after && InWindow(w, r) && InWindow(w, s) && KeyOf(r) == KeyOf(s) ==> r == s)
  }

  ghost predicate Represented(w: Window, r: Row, after: multiset<Row>) {
    exists s :: s in after && InWindow(w, s) && KeyOf(s) == KeyOf(r)
  }

  // The statement run on a table

  predicate HasKey(rows: seq<Row>, k: Key) {
    exists i :: 0 <= i < |rows| && KeyOf(rows[i]) == k
  }

  /** The rows left after deleting the window's. */
  function Outside(w: Window, rows: seq<Row>): seq<Row> {
    if rows == [] then []
    else
      var last := rows[|rows| - 1];
      Outside(w, rows[..|rows| - 1]) + (if InWindow(w, last) then [] else [last])
  }

  /** One row of the window for every key: the grouped SELECT, taking the first row of each group. */
  function Grouped(w: Window, rows: seq<Row>): seq<Row> {
    if rows == [] then []
    else
      var last := rows[|rows| - 1];
      var before := Grouped(w, rows[..|rows| - 1]);
      if InWindow(w, last) && !HasKey(before, KeyOf(last)) then before + [last] else before
  }

  class BigQueryTable {
    var rows: seq<Row>

    /** The inner SELECT: one row of each group. */
    method SelectGrouped(w: Window) returns (source: seq<Row>)
      ensures source == Grouped(w, rows)
    {
      hide KeyOf, HasKey, InWindow;
      source := [];
      for i := 0 to |rows|
        invariant source == Grouped(w, rows[..i])
      {
        assert rows[..i + 1][..i] == rows[..i];
        if InWindow(w, rows[i]) && !HasKey(source, KeyOf(rows[i])) {
          source := source + [rows[i]];
        }
      }
      assert rows[..|rows|] == rows;
    }

    /** The rows the DELETE branch leaves. */
    method SelectOutside(w: Window) returns (kept: seq<Row>)
      ensures kept == Outside(w, rows)
    {
      hide InWindow;
      kept := [];
      for i := 0 to |rows|
        invariant kept == Outside(w, rows[..i])
      {
        assert rows[..i + 1][..i] == rows[..i];
        if !InWindow(w, rows[i]) {
          kept := kept + [rows[i]];
        }
      }
      assert rows[..|rows|] == rows;
    }

    /** The MERGE: nothing matches, so the window's rows are deleted and the source's inserted. */
    method Merge(w: Window)
      modifies this
      ensures rows == Outside(w, old(rows)) + Grouped(w, old(rows))
      ensures Merged(w, multiset(old(rows)), multiset(rows))
    {
      hide *;
      MergeIsMerged(w, rows);
      var source := SelectGrouped(w);
      var kept := SelectOutside(w);
      rows := kept + source;
    }
  }

  lemma {:induction false} OutsideCounts(w: Window, rows: seq<Row>, r: Row)
    ensures multiset(Outside(w, rows))[r] == if InWindow(w, r) then 0 else multiset(rows)[r]
  {
    if rows != [] {
      var n := |rows| - 1;
      OutsideCounts(w, rows[..n], r);
      assert rows == rows[..n] + [rows[n]];
    }
  }

  /** The rows picked: each once, in the window, of the table, and with different keys. */
  ghost predicate Picked(w: Window, picked: seq<Row>, rows: seq<Row>) {
    && (forall i :: 0 <= i < |picked| ==> InWindow(w, picked[i]) && picked[i] in rows)
    && (forall i, j :: 0 <= i < j < |picked| ==> KeyOf(picked[i]) != KeyOf(picked[j]))
    && (forall i :: 0 <= i < |rows| && InWindow(w, rows[i]) ==> HasKey(picked, KeyOf(rows[i])))
  }

  lemma {:induction false} HasKeyPush(rows: seq<Row>, r: Row, k: Key)
    ensures HasKey(rows + [r], k) <==> HasKey(rows, k) || KeyOf(r) == k
  {
    if HasKey(rows, k) {
      var i :| 0 <= i < |rows| && KeyOf(rows[i]) == k;
      assert KeyOf((rows + [r])[i]) == k;
    }
    assert (rows + [r])[|rows|] == r;
  }

  lemma {:induction false} GroupedPicks(w: Window, rows: seq<Row>)
    ensures Picked(w, Grouped(w, rows), rows)
  {
    hide KeyOf, HasKey;
    if rows != [] {
      var n := |rows| - 1;
      var last, before := rows[n], Grouped(w, rows[..n]);
      GroupedPicks(w, rows[..n]);
      assert forall i :: 0 <= i < n ==> rows[..n][i] == rows[i];
      if InWindow(w, last) && !HasKey(before, KeyOf(last)) {
        forall k { HasKeyPush(before, last, k); }
        forall i | 0 <= i < |before| ensures KeyOf(before[i]) != KeyOf(last) {
          KeyAt(before, i);
        }
      }
    }
  }

  lemma {:induction false} KeyAt(rows: seq<Row>, i: nat)
    requires i < |rows|
    ensures HasKey(rows, KeyOf(rows[i]))
  {
  }

  lemma {:induction false} DistinctOnce(rows: seq<Row>, r: Row)
    requires forall i, j :: 0 <= i < j < |rows| ==> KeyOf(rows[i]) != KeyOf(rows[j])
    ensures multiset(rows)[r] == if r in rows then 1 else 0
  {
    hide KeyOf;
    if rows != [] {
      var n := |rows| - 1;
      DistinctOnce(rows[..n], r);
      assert rows == rows[..n] + [rows[n]];
      assert rows[n] !in rows[..n];
    }
  }

  lemma {:induction false} MergeCounts(w: Window, rows: seq<Row>, r: Row)
    ensures multiset(Outside(w, rows) + Grouped(w, rows))[r] ==
      if InWindow(w, r) then (if r in Grouped(w, rows) then 1 else 0) else multiset(rows)[r]
  {
    hide KeyOf, Outside, Grouped, InWindow, HasKey;
    GroupedPicks(w, rows);
    OutsideCounts(w, rows, r);
    DistinctOnce(Grouped(w, rows), r);
  }

  lemma {:induction false} RepresentedByPick(w: Window, picked: seq<Row>, r: Row, after: multiset<Row>)
    requires HasKey(picked, KeyOf(r))
    requires forall i :: 0 <= i < |picked| ==> InWindow(w, picked[i]) && picked[i] in after
    ensures Represented(w, r, after)
  {
    hide KeyOf, InWindow;
    var j :| 0 <= j < |picked| && KeyOf(picked[j]) == KeyOf(r);
    assert picked[j] in after;
  }

  lemma {:induction false} DistinctPicks(picked: seq<Row>, r: Row, s: Row)
    requires forall i, j :: 0 <= i < j < |picked| ==> KeyOf(picked[i]) != KeyOf(picked[j])
    requires r in picked && s in picked && KeyOf(r) == KeyOf(s)
    ensures r == s
  {
    hide KeyOf;
    var i :| 0 <= i < |picked| && picked[i] == r;
    var j :| 0 <= j < |picked| && picked[j] == s;
  }

  /** Picked rows in place of the window's make a MERGE. */
  lemma {:induction false} PicksMakeMerge(w: Window, picked: seq<Row>, rows: seq<Row>, before: multiset<Row>, after: multiset<Row>)
    requires Picked(w, picked, rows) && forall r :: r in before <==> r in rows
    requires forall r :: after[r] == if InWindow(w, r) then (if r in picked then 1 else 0) else before[r]
    ensures Merged(w, before, after)
  {
    hide KeyOf, InWindow, HasKey, Represented;
    forall r | r in before && InWindow(w, r) ensures Represented(w, r, after) {
      var i :| 0 <= i < |rows| && rows[i] == r;
      RepresentedByPick(w, picked, r, after);
    }
    forall r, s | r in after && s in after && InWindow(w, r) && InWindow(w, s) && KeyOf(r) == KeyOf(s) ensures r == s {
      DistinctPicks(picked, r, s);
    }
  }

  lemma {:induction false} MergeIsMerged(w: Window, rows: seq<Row>)
    ensures Merged(w, multiset(rows), multiset(Outside(w, rows) + Grouped(w, rows)))
  {
    hide *;
    GroupedPicks(w, rows);
    forall r
      ensures multiset(Outside(w, rows) + Grouped(w, rows))[r] ==
        if InWindow(w, r) then (if r in Grouped(w, rows) then 1 else 0) else multiset(rows)[r]
    {
      MergeCounts(w, rows, r);
    }
    PicksMakeMerge(w, Grouped(w, rows), rows, multiset(rows), multiset(Outside(w, rows) + Grouped(w, rows)));
  }

  // What MERGEs keep

  predicate KeysDistinct(rows: seq<Row>) {
    forall i, j :: 0 <= i < j < |rows| ==> KeyOf(rows[i]) != KeyOf(rows[j])
  }

  /** The table holds one or more copies of every row of the list, and nothing else. */
  ghost predicate Copies(table: multiset<Row>, rows: seq<Row>) {
    forall r :: r in table <==> r in rows
  }

  /** A MERGE never adds: outside the window nothing changes, inside it no row gains copies. */
  lemma {:induction false} MergeNeverAdds(w: Window, before: multiset<Row>, after: multiset<Row>, r: Row)
    requires Merged(w, before, after)
    ensures after[r] <= before[r] && (!InWindow(w, r) ==> after[r] == before[r])
  {
    hide KeyOf, InWindow, Represented;
    if InWindow(w, r) && r in after {
      assert after[r] == 1 && r in before;
    }
  }

  /** Inside the window every key of the table is left with exactly one row, once. */
  lemma {:induction false} OneRowPerKey(w: Window, before: multiset<Row>, after: multiset<Row>, r: Row) returns (s: Row)
    requires Merged(w, before, after) && r in before && InWindow(w, r)
    ensures after[s] == 1 && InWindow(w, s) && KeyOf(s) == KeyOf(r) && s in before
    ensures forall u :: u in after && InWindow(w, u) && KeyOf(u) == KeyOf(r) ==> u == s
  {
    hide KeyOf, InWindow;
    assert Represented(w, r, after);
    s :| s in after && InWindow(w, s) && KeyOf(s) == KeyOf(r);
  }

  /** A window that holds no two listed rows of one key. */
  predicate TellsApart(w: Window, rows: seq<Row>) {
    forall i, j :: 0 <= i < j < |rows| && KeyOf(rows[i]) == KeyOf(rows[j]) ==> !(InWindow(w, rows[i]) && InWindow(w, rows[j]))
  }

  /** A MERGE over any window that tells the listed rows apart keeps them all, those in the window once each. */
  lemma {:induction false} MergeKeepsListed(w: Window, rows: seq<Row>, before: multiset<Row>, after: multiset<Row>, r: Row)
    requires Merged(w, before, after) && Copies(before, rows) && TellsApart(w, rows)
    ensures r in after <==> r in rows
    ensures r in rows && InWindow(w, r) ==> after[r] == 1
  {
    hide KeyOf, InWindow, Represented, Merged;
    MergeNeverAdds(w, before, after, r);
    if r in rows && InWindow(w, r) {
      var s := OneRowPerKey(w, before, after, r);
      var i :| 0 <= i < |rows| && rows[i] == r;
      var j :| 0 <= j < |rows| && rows[j] == s;
      assert i == j;
    }
  }

  /** A MERGE over a window that holds two listed rows of one key loses one of them. */
  lemma {:induction false} MergeLosesOneOf(w: Window, rows: seq<Row>, before: multiset<Row>, after: multiset<Row>, i: nat, j: nat)
    requires Merged(w, before, after) && i < j < |rows| && KeyOf(rows[i]) == KeyOf(rows[j])
    requires InWindow(w, rows[i]) && InWindow(w, rows[j])
    ensures after[rows[i]] < multiset(rows)[rows[i]] || after[rows[j]] < multiset(rows)[rows[j]]
  {
    hide KeyOf, InWindow, Represented;
    assert rows[i] in multiset(rows) && rows[j] in multiset(rows);
    TwiceCounts(rows, i, j);
    if rows[i] in after && rows[j] in after {
      assert rows[i] == rows[j];
    }
  }

  /** The MERGEs of several days, one after the other. */
  ghost predicate MergedAll(ws: seq<Window>, tables: seq<multiset<Row>>) {
    |tables| == |ws| + 1 && forall k :: 0 <= k < |ws| ==> Merged(ws[k], tables[k], tables[k + 1])
  }

  /** The row's time lies in the window of some day. */
  predicate InSome(ws: seq<Window>, r: Row) {
    exists k :: 0 <= k < |ws| && InWindow(ws[k], r)
  }

  predicate AllTellApart(ws: seq<Window>, rows: seq<Row>) {
    forall k :: 0 <= k < |ws| ==> TellsApart(ws[k], rows)
  }

  lemma {:induction false} MergesNeverAdd(ws: seq<Window>, tables: seq<multiset<Row>>, k: nat, l: nat, r: Row)
    requires MergedAll(ws, tables) && k <= l <= |ws|
    ensures tables[l][r] <= tables[k][r]
    ensures !InSome(ws, r) ==> tables[l][r] == tables[k][r]
  {
    hide Merged, InWindow;
    if k < l {
      MergesNeverAdd(ws, tables, k, l - 1, r);
      MergeNeverAdds(ws[l - 1], tables[l - 1], tables[l], r);
      assert InWindow(ws[l - 1], r) ==> InSome(ws, r);
    }
  }

  lemma {:induction false} MergesKeepListed(ws: seq<Window>, tables: seq<multiset<Row>>, rows: seq<Row>, n: nat)
    requires MergedAll(ws, tables) && Copies(tables[0], rows) && AllTellApart(ws, rows) && n <= |ws|
    ensures Copies(tables[n], rows)
    ensures forall r, k :: r in rows && 0 <= k < n && InWindow(ws[k], r) ==> tables[n][r] == 1
  {
    hide Merged, InWindow, TellsApart, KeyOf;
    if n > 0 {
      MergesKeepListed(ws, tables, rows, n - 1);
      var before, after, w := tables[n - 1], tables[n], ws[n - 1];
      forall r
        ensures r in after <==> r in rows
        ensures r in rows && InWindow(w, r) ==> after[r] == 1
        ensures after[r] <= before[r]
      {
        MergeKeepsListed(w, rows, before, after, r);
        MergeNeverAdds(w, before, after, r);
      }
    }
  }

  /** Starting from copies of the listed rows, daily MERGEs whose windows together hold them leave each exactly once,
      exactly when no window holds two rows of one key. */
  lemma {:induction false} MergesLeaveOneEachExactly(ws: seq<Window>, tables: seq<multiset<Row>>, rows: seq<Row>)
    requires MergedAll(ws, tables) && Copies(tables[0], rows) && forall r :: r in rows ==> InSome(ws, r)
    ensures tables[|ws|] == multiset(rows) <==> AllTellApart(ws, rows)
  {
    hide Merged, InWindow, KeyOf;
    if AllTellApart(ws, rows) {
      MergesKeepListed(ws, tables, rows, |ws|);
      forall r ensures tables[|ws|][r] == multiset(rows)[r] {
        if r in rows {
          ListedOnce(ws, rows, r);
        }
      }
    } else {
      var k :| 0 <= k < |ws| && !TellsApart(ws[k], rows);
      SharedWindowLosesRow(ws, tables, rows, k);
    }
  }

  lemma {:induction false} ListedOnce(ws: seq<Window>, rows: seq<Row>, r: Row)
    requires AllTellApart(ws, rows) && r in rows && InSome(ws, r)
    ensures multiset(rows)[r] == 1
  {
    hide KeyOf, InWindow;
    var k :| 0 <= k < |ws| && InWindow(ws[k], r);
    var i :| 0 <= i < |rows| && rows[i] == r;
    assert rows == rows[..i] + [r] + rows[i + 1..];
    assert TellsApart(ws[k], rows);
    assert r !in rows[..i] && r !in rows[i + 1..];
  }

  /** Whatever the tables held before, a window with two listed rows of one key leaves less than the listed rows. */
  lemma {:induction false} SharedWindowLosesRow(ws: seq<Window>, tables: seq<multiset<Row>>, rows: seq<Row>, k: nat)
    requires MergedAll(ws, tables) && k < |ws| && !TellsApart(ws[k], rows)
    ensures tables[|ws|] != multiset(rows)
  {
    hide Merged, InWindow, KeyOf;
    var i, j :| 0 <= i < j < |rows| && KeyOf(rows[i]) == KeyOf(rows[j]) && InWindow(ws[k], rows[i]) && InWindow(ws[k], rows[j]);
    MergeLosesOneOf(ws[k], rows, tables[k], tables[k + 1], i, j);
    MergesNeverAdd(ws, tables, k + 1, |ws|, rows[i]);
    MergesNeverAdd(ws, tables, k + 1, |ws|, rows[j]);
  }

  lemma {:induction false} TwiceCounts(rows: seq<Row>, i: nat, j: nat)
    requires i < j < |rows|
    ensures rows[i] == rows[j] ==> multiset(rows)[rows[i]] >= 2
  {
    assert rows == (rows[..i] + [rows[i]] + rows[i + 1..j] + [rows[j]]) + rows[j + 1..];
  }

  /** A second MERGE changes nothing. */
  lemma {:induction false} MergeIsIdempotent(w: Window, before: multiset<Row>, once: multiset<Row>, twice: multiset<Row>)
    requires Merged(w, before, once) && Merged(w, once, twice)
    ensures twice == once
  {
    hide KeyOf;
    forall r ensures twice[r] == once[r] {
      if InWindow(w, r) && r in once {
        assert Represented(w, r, twice);
        var s :| s in twice && InWindow(w, s) && KeyOf(s) == KeyOf(r);
        assert s in once;
      } else if InWindow(w, r) {
        assert r !in twice;
      }
    }
  }

  // Which tables have distinct keys

  predicate Positional(t: Table) {
    !t.BlocksTable? && !t.SignaturesTable?
  }

  lemma {:induction false} EventIndex(x: Extraction, i: nat)
    requires EventRows(x).Success? && i < |OrNone(EventRows(x).value)|
    ensures OrNone(EventRows(x).value)[i].fields.EventFields? && OrNone(EventRows(x).value)[i].fields.eventIndex == i
  {
    hide EncodeTime, EventFieldsOf;
  }

  /** The two rows' index columns, both change or both event indices, differ. */
  predicate IndexDiffers(a: Fields, b: Fields) {
    match (a, b)
    case (ChangeFields(c), ChangeFields(d)) => c.index != d.index
    case (ModuleFields(c), ModuleFields(d)) => c.index != d.index
    case (ResourceFields(c), ResourceFields(d)) => c.index != d.index
    case (TableItemFields(c), TableItemFields(d)) => c.index != d.index
    case (EventFields(i, _, _), EventFields(j, _, _)) => i != j
    case _ => false
  }

  lemma {:induction false} ChangeIndices(x: Extraction, t: Table, i: nat, j: nat)
    requires ChangeRows(x).Success? && Changes.AllWellTyped(x.changes)
    ensures
      var c := ChangeRows(x).value;
      && (i < j < |c.changes| ==> c.changes[i].index != c.changes[j].index)
      && (i < j < |c.modules| ==> c.modules[i].index != c.modules[j].index)
      && (i < j < |c.resources| ==> c.resources[i].index != c.resources[j].index)
      && (i < j < |c.tableItems| ==> c.tableItems[i].index != c.tableItems[j].index)
  {
    hide Changes.ChangesOf, EncodeTime, Request, Changes.AllWellTyped;
    Changes.SubTablesAscend(x.changes);
    Changes.SubTablesPartitionChanges(x.changes);
  }

  lemma {:induction false} SameVersionKeys(r: Row, s: Row)
    requires IndexDiffers(r.fields, s.fields)
    ensures KeyOf(r) != KeyOf(s)
  {
  }

  /** Within one transaction, rows of a positional table have different keys; there is at most one block row. */
  lemma {:induction false} TransactionKeysDistinct(t: Table, tx: Transaction)
    requires !t.SignaturesTable? && RowsFor(t, tx).Success?
    ensures KeysDistinct(RowsFor(t, tx).value)
  {
    hide Extract, ChangeRows, EventRows, SignatureRows, BlockRow, TransactionRow, KeyOf;
    var x, rows := Extract(tx).value, RowsFor(t, tx).value;
    RowsForAreFiled(t, tx);
    ExtractionTime(tx);
    forall i, j | 0 <= i < j < |rows| ensures KeyOf(rows[i]) != KeyOf(rows[j]) {
      if t.EventsTable? {
        EventIndex(x, i);
        EventIndex(x, j);
      } else {
        ChangeIndices(x, t, i, j);
      }
      SameVersionKeys(rows[i], rows[j]);
    }
  }

  /** Every key but the blocks table's holds the version. */
  lemma {:induction false} KeysHoldVersions(r: Row, s: Row)
    requires !TableOf(r.fields).BlocksTable? && TableOf(r.fields) == TableOf(s.fields) && KeyOf(r) == KeyOf(s)
    ensures r.version == s.version
  {
  }

  /** A block row's key is its transaction's block height, and its transaction is block metadata. */
  lemma {:induction false} BlockKeyIsHeight(tx: Transaction)
    requires RowsFor(BlocksTable, tx).Success? && RowsFor(BlocksTable, tx).value != []
    ensures KeyOf(RowsFor(BlocksTable, tx).value[0]) == HeightKey(tx.blockHeight) && tx.txType.BlockMetadata?
  {
    hide Extract, EncodeTime, EncodeAddress;
    ExtractionTime(tx);
  }

  /** The multi-key signature of an account that lists one key twice and is signed with its third key. */
  function RepeatedKey(k: Signatures.AnyPublicKey, k2: Signatures.AnyPublicKey, sig: Signatures.AnySignature): Signatures.Signature {
    var multi := Signatures.MultiKeyProto([k, k, k2], [Signatures.IndexedSignature(2, Some(sig))], 1);
    var account := Signatures.AccountSignature(Signatures.AcctMultiKey, Some(Signatures.AcctMultiKeyData(multi)));
    Signatures.Signature(Signatures.SingleSender, Some(Signatures.SingleSenderData(Some(account))))
  }

  lemma {:induction false} RepeatedKeyJoins(k: Signatures.AnyPublicKey, k2: Signatures.AnyPublicKey, sig: Signatures.AnySignature)
    requires Signatures.ConvertKey(k).Success? && Signatures.ConvertKey(k2).Success?
    requires Signatures.ConvertSig(sig, Some(2)).Success?
    ensures
      var multi := Signatures.MultiKeyProto([k, k, k2], [Signatures.IndexedSignature(2, Some(sig))], 1);
      var key := Signatures.ConvertKey(k).value;
      var rs := Signatures.FromMultiKey(multi);
      && rs.Success? && |rs.value| == 3
      && rs.value[0] == rs.value[1] == Signatures.MultiKeyRecord(multi, key, None)
      && rs.value[2] == Signatures.MultiKeyRecord(multi, Signatures.ConvertKey(k2).value, Some(Signatures.ConvertSig(sig, Some(2)).value))
  {
    hide Signatures.ConvertKey, Signatures.ConvertSig;
    var multi := Signatures.MultiKeyProto([k, k, k2], [Signatures.IndexedSignature(2, Some(sig))], 1);
    var items := Signatures.MultiKeyItems(multi);
    var value := Signatures.ConvertSig(sig, Some(2)).value;
    assert items == [Success(value)] && items[..0] == [];
    SigKeepsIndex(sig);
    assert Signatures.Index([], Signatures.KeyBuilder) == Success(map[]);
    var sigs: map<nat, Signatures.SigValue> := map[2 := value];
    assert Signatures.Index(items, Signatures.KeyBuilder) == Success(sigs);
    var record := Signatures.MultiKeyRecord(multi, Signatures.ConvertKey(k).value, None);
    var last := Signatures.MultiKeyRecord(multi, Signatures.ConvertKey(k2).value, Some(value));
    assert [] + [record] == [record] && [record] + [record] == [record, record];
    assert Signatures.MultiKeyRecords(multi, sigs, 0) == Success([]);
    assert Signatures.MultiKeyRecords(multi, sigs, 1) == Success([record]);
    assert Signatures.MultiKeyRecords(multi, sigs, 2) == Success([record, record]);
    assert Signatures.MultiKeyRecords(multi, sigs, 3) == Success([record, record] + [last]);
  }

  lemma {:induction false} SigKeepsIndex(sig: Signatures.AnySignature)
    requires Signatures.ConvertSig(sig, Some(2)).Success?
    ensures Signatures.ConvertSig(sig, Some(2)).value.index == Some(2)
  {
  }

  /** The signatures key does not tell rows apart: the two rows of the repeated key have one key. */
  lemma {:induction false} SignatureKeyIsNotPositional(version: nat, sender: string, k: Signatures.AnyPublicKey, k2: Signatures.AnyPublicKey,
                                                       sig: Signatures.AnySignature, unix: UnixTimestamp)
    requires Address.Fixed(sender).Success? && Signatures.ConvertKey(k).Success? && Signatures.ConvertKey(k2).Success?
    requires Signatures.ConvertSig(sig, Some(2)).Success?
    ensures SignatureRoles.GetSignatures(version, sender, RepeatedKey(k, k2, sig)).Success?
    ensures
      var rows := SignatureRoles.GetSignatures(version, sender, RepeatedKey(k, k2, sig)).value;
      && |rows| == 3
      && KeyOf(Row(version, unix, SignatureFields(rows[0]))) == KeyOf(Row(version, unix, SignatureFields(rows[1])))
  {
    hide Address.Fixed, Signatures.ConvertKey, Signatures.ConvertSig, Signatures.FromMultiKey;
    RepeatedKeyJoins(k, k2, sig);
    var subs, signer := SignatureRoles.FromSignature(RepeatedKey(k, k2, sig)).value, Address.Fixed(sender).value;
    assert |subs| == 3 && subs[0] == subs[1];
    assert forall i :: 0 <= i < 3 ==> SignatureRoles.Resolve(version, signer, subs[i]).Success?;
    assert SignatureRoles.ResolveAll(version, signer, subs, 0).Success?;
    assert SignatureRoles.ResolveAll(version, signer, subs, 1).Success?;
    assert SignatureRoles.ResolveAll(version, signer, subs, 2).Success?;
    SignatureRoles.ResolveEach(version, signer, subs, 3);
  }
}
