/** What every run of the range protocol promises: no message is lost, and once all are acknowledged the daily MERGEs
    leave one row for every expected row. */
module ProtocolLaws {
  import opened Wrappers
  import opened Tables
  import opened RangeExtraction
  import opened Coordinator
  import opened Dedupe
  import opened Protocol

  // Safety

  /** A message is deliverable, in flight, or acknowledged with all its rows' keys held by every table. */
  ghost predicate Safe(chain: Chain, s: World, id: nat)
    requires id < |s.sent| == |s.status|
  {
    s.status[id].Deliverable? || s.status[id].Outstanding? ||
    (s.status[id].Acked? && forall t: Table :: HoldsMessage(chain, s.tables.At(t), s.sent[id], t))
  }

  lemma {:induction false} PublishOrderHasAll(t: Table) returns (k: nat)
    ensures k < |PublishOrder| && PublishOrder[k] == t
  {
    k := match t
         case TransactionsTable => 0 case ChangesTable => 1 case ModulesTable => 2 case TableItemsTable => 3
         case ResourcesTable => 4 case BlocksTable => 5 case EventsTable => 6 case SignaturesTable => 7;
  }

  /** No message is ever lost, in any run: any number of workers, crashes mid-publish, nacks, lost replies,
      redeliveries and MERGEs. The one exception is a message whose every acknowledgement came short: on a stream that
      ran dry, or after a publish that returned although rows were lost. */
  lemma {:induction false} NoRangeIsLost(chain: Chain, es: seq<Protocol.Event>, id: nat)
    requires IsChain(chain) && Run(chain, Start, es).Some? && id < |Run(chain, Start, es).value.sent|
    ensures |Run(chain, Start, es).value.status| == |Run(chain, Start, es).value.sent|
    ensures Safe(chain, Run(chain, Start, es).value, id) || id in LeftShort(chain, es)
  {
    hide IsChain, Run, Short, Filled, HoldsMessage, Sound;
    RunsKeepInv(chain, es);
    var s := Run(chain, Start, es).value;
    if s.status[id].Acked? && id !in LeftShort(chain, es) {
      assert id in Filled(chain, es);
      forall t: Table ensures HoldsMessage(chain, s.tables.At(t), s.sent[id], t) {
        var k := PublishOrderHasAll(t);
        assert HoldsMessage(chain, s.tables.At(PublishOrder[k]), s.sent[id], PublishOrder[k]);
      }
    }
  }

  /** Where no stream runs dry and no publish loses rows, there is no exception. */
  lemma {:induction false} LosslessRunsLoseNothing(chain: Chain, es: seq<Protocol.Event>, id: nat)
    requires IsChain(chain) && Run(chain, Start, es).Some? && id < |Run(chain, Start, es).value.sent|
    requires forall i :: 0 <= i < |es| ==> !MayLose(es[i])
    ensures |Run(chain, Start, es).value.status| == |Run(chain, Start, es).value.sent|
    ensures Safe(chain, Run(chain, Start, es).value, id)
  {
    hide IsChain, Run, LeftShort, Safe;
    NothingLeftShort(chain, es);
    NoRangeIsLost(chain, es, id);
  }

  /** If a stream runs dry, its message is acknowledged with nothing published. */
  lemma {:induction false} EmptyAckLosesRange(chain: Chain, m: Message)
    requires m.range.start <= m.range.end && m.Options().Does(TransactionsTable)
    ensures
      var es := [Send(m), Pull(0, 0), AckEmpty(0)];
      && Run(chain, Start, es).Some? && Run(chain, Start, es).value.status == [Acked]
      && !HoldsMessage(chain, Run(chain, Start, es).value.tables.At(TransactionsTable), m, TransactionsTable)
  {
    hide Extractable, MessageRows, KeyOf;
    var e0, e1, e2 := Send(m), Pull(0, 0), AckEmpty(0);
    var t0, t1, t2 := [e0], [e0, e1], [e0, e1, e2];
    assert t0[..0] == [] && t1[..1] == t0 && t2[..2] == t1;
    assert Run(chain, Start, []) == Some(Start);
    var s0 := World([m], [Deliverable], map[], NoRows);
    assert Start.sent + [m] == [m] && Start.status + [Deliverable] == [Deliverable];
    assert Run(chain, Start, t0) == Some(s0);
    var s1 := World([m], [Outstanding], map[0 := Job(0, 0, true)], NoRows);
    assert s0.jobs[0 := Job(0, 0, true)] == s1.jobs && s0.status[0 := Outstanding] == s1.status;
    assert Run(chain, Start, t1) == Some(s1);
    assert Run(chain, Start, t2).value.tables == NoRows;
    FirstRow(chain, m);
  }

  lemma {:induction false} FirstRow(chain: Chain, m: Message)
    requires m.range.start <= m.range.end && m.Options().Does(TransactionsTable)
    ensures !HoldsMessage(chain, multiset{}, m, TransactionsTable)
  {
    hide Convert, Given, KeyOf;
    if Extractable(chain, m) {
      var txs := Segment(chain, m.range.start, m.range.end);
      ConvertGives(m.Options(), txs[0], TransactionsTable);
      TransactionsRowGiven(txs[0]);
      var row := Given(TransactionsTable, txs[0])[0];
      assert row in TableRows(txs, TransactionsTable);
      assert row in MessageRows(chain, m, TransactionsTable) && !HasKeyIn(multiset{}, KeyOf(row));
    }
  }

  // Expected rows

  predicate Quiescent(s: World) {
    forall id :: 0 <= id < |s.status| ==> s.status[id].Acked?
  }

  /** The table is sound and holds every message. */
  ghost predicate Settled(chain: Chain, s: World, t: Table) {
    Sound(chain, s.sent, s.tables.At(t), t) &&
    forall id :: 0 <= id < |s.sent| ==> HoldsMessage(chain, s.tables.At(t), s.sent[id], t)
  }

  /** In any run, once every message is acknowledged, and none only short, every table is settled. */
  lemma {:induction false} QuiescentRunSettles(chain: Chain, es: seq<Protocol.Event>, t: Table)
    requires IsChain(chain) && Run(chain, Start, es).Some?
    requires Quiescent(Run(chain, Start, es).value) && LeftShort(chain, es) == {}
    ensures Settled(chain, Run(chain, Start, es).value, t)
  {
    hide IsChain, Run, Short, Filled, HoldsMessage, Sound;
    RunsKeepInv(chain, es);
    var s := Run(chain, Start, es).value;
    forall id | 0 <= id < |s.sent| ensures HoldsMessage(chain, s.tables.At(t), s.sent[id], t) {
      assert s.status[id].Acked? && id !in LeftShort(chain, es);
      var k := PublishOrderHasAll(t);
      assert HoldsMessage(chain, s.tables.At(PublishOrder[k]), s.sent[id], PublishOrder[k]);
    }
  }

  /** One past the last version any message covers. */
  function Bound(sent: seq<Message>): (n: nat)
    ensures forall i :: 0 <= i < |sent| ==> sent[i].range.end < n
  {
    if sent == [] then 0
    else
      var before := Bound(sent[..|sent| - 1]);
      assert forall i :: 0 <= i < |sent| - 1 ==> sent[..|sent| - 1][i] == sent[i];
      var end := sent[|sent| - 1].range.end;
      if end < before then before else end + 1
  }

  /** The expected rows of the wanted versions below n, each version once, in order. */
  function ExpectedBelow(chain: Chain, sent: seq<Message>, t: Table, n: nat): seq<Row> {
    if n == 0 then []
    else ExpectedBelow(chain, sent, t, n - 1) + If(Wanted(sent, t, n - 1), Given(t, chain(n - 1)))
  }

  function ExpectedRows(chain: Chain, sent: seq<Message>, t: Table): seq<Row> {
    ExpectedBelow(chain, sent, t, Bound(sent))
  }

  lemma {:induction false} ExpectedBelowExactly(chain: Chain, sent: seq<Message>, t: Table, n: nat, row: Row)
    requires IsChain(chain)
    ensures row in ExpectedBelow(chain, sent, t, n) <==>
      row.version < n && Wanted(sent, t, row.version) && IsExpected(chain, t, row)
  {
    hide Given, Wanted, IsExpected, IsChain;
    if n > 0 {
      ExpectedBelowExactly(chain, sent, t, n - 1, row);
      ExpectedAt(chain, t, n - 1, row);
    }
  }

  lemma {:induction false} ExpectedAt(chain: Chain, t: Table, v: nat, row: Row)
    requires IsChain(chain)
    ensures row in Given(t, chain(v)) <==> row.version == v && IsExpected(chain, t, row)
  {
    hide Given;
    if row in Given(t, chain(v)) {
      GivenVersion(chain(v), t, row);
    }
  }

  lemma {:induction false} ExpectedExactly(chain: Chain, sent: seq<Message>, t: Table, row: Row)
    requires IsChain(chain)
    ensures row in ExpectedRows(chain, sent, t) <==> Wanted(sent, t, row.version) && IsExpected(chain, t, row)
  {
    hide IsExpected, ExpectedBelow;
    ExpectedBelowExactly(chain, sent, t, Bound(sent), row);
  }

  // When the expected rows' keys are distinct

  /** Rows of one key have one version and one time, except in the blocks table. */
  lemma {:induction false} SameKeySameTime(chain: Chain, t: Table, r: Row, s: Row)
    requires IsChain(chain) && !t.BlocksTable? && IsExpected(chain, t, r) && IsExpected(chain, t, s) && KeyOf(r) == KeyOf(s)
    ensures r.version == s.version && r.unix == s.unix
  {
    hide Given, KeyOf;
    GivenVersion(chain(r.version), t, r);
    GivenVersion(chain(s.version), t, s);
    KeysHoldVersions(r, s);
  }

  /** Every wanted version below n has distinct keys among its own rows. */
  ghost predicate EachVersionDistinct(chain: Chain, sent: seq<Message>, t: Table, n: nat) {
    forall v: nat :: v < n && Wanted(sent, t, v) ==> KeysDistinct(Given(t, chain(v)))
  }

  lemma {:induction false} KeysDistinctAppend(a: seq<Row>, b: seq<Row>)
    requires forall i, j :: 0 <= i < |a| && 0 <= j < |b| ==> KeyOf(a[i]) != KeyOf(b[j])
    ensures KeysDistinct(a + b) <==> KeysDistinct(a) && KeysDistinct(b)
  {
    hide KeyOf;
    if KeysDistinct(a + b) {
      forall i, j | 0 <= i < j < |a| ensures KeyOf(a[i]) != KeyOf(a[j]) {
        assert KeyOf((a + b)[i]) != KeyOf((a + b)[j]);
      }
      forall i, j | 0 <= i < j < |b| ensures KeyOf(b[i]) != KeyOf(b[j]) {
        assert KeyOf((a + b)[|a| + i]) != KeyOf((a + b)[|a| + j]);
      }
    }
  }

  lemma {:induction false} NewVersionKeys(chain: Chain, sent: seq<Message>, t: Table, n: nat, i: nat, j: nat)
    requires IsChain(chain) && !t.BlocksTable?
    requires i < |ExpectedBelow(chain, sent, t, n)| && j < |Given(t, chain(n))|
    ensures KeyOf(ExpectedBelow(chain, sent, t, n)[i]) != KeyOf(Given(t, chain(n))[j])
  {
    hide Given, KeyOf, Wanted;
    var row, s := ExpectedBelow(chain, sent, t, n)[i], Given(t, chain(n))[j];
    ExpectedBelowExactly(chain, sent, t, n, row);
    GivenVersion(chain(n), t, s);
    if KeyOf(row) == KeyOf(s) {
      SameKeySameTime(chain, t, row, s);
    }
  }

  /** In every table but blocks, the expected rows' keys are distinct exactly when each transaction's own are. */
  lemma {:induction false} KeysDistinctPerTransaction(chain: Chain, sent: seq<Message>, t: Table, n: nat)
    requires IsChain(chain) && !t.BlocksTable?
    ensures KeysDistinct(ExpectedBelow(chain, sent, t, n)) <==> EachVersionDistinct(chain, sent, t, n)
  {
    hide Given, KeyOf, Wanted, IsChain, KeysDistinct;
    if n == 0 {
      NoKeys();
    } else {
      KeysDistinctPerTransaction(chain, sent, t, n - 1);
      var before, more := ExpectedBelow(chain, sent, t, n - 1), Given(t, chain(n - 1));
      if Wanted(sent, t, n - 1) {
        forall i, j | 0 <= i < |before| && 0 <= j < |more| ensures KeyOf(before[i]) != KeyOf(more[j]) {
          NewVersionKeys(chain, sent, t, n - 1, i, j);
        }
        KeysDistinctAppend(before, more);
      } else {
        assert before + [] == before;
      }
    }
  }

  lemma {:induction false} NoKeys()
    ensures KeysDistinct([])
  {
  }

  /** Wanted block-metadata transactions below n that give a block row have different heights. */
  ghost predicate HeightsDistinct(chain: Chain, sent: seq<Message>, n: nat) {
    forall v: nat, w: nat | v < w < n && GivesBlock(chain, sent, v) && GivesBlock(chain, sent, w) ::
      chain(v).blockHeight != chain(w).blockHeight
  }

  predicate GivesBlock(chain: Chain, sent: seq<Message>, v: nat) {
    Wanted(sent, BlocksTable, v) && Given(BlocksTable, chain(v)) != []
  }

  /** What Given holds of a block-metadata transaction: one row keyed by its height, or none. */
  lemma {:induction false} GivenBlock(tx: Transaction)
    ensures |Given(BlocksTable, tx)| <= 1
    ensures Given(BlocksTable, tx) != [] ==> KeyOf(Given(BlocksTable, tx)[0]) == HeightKey(tx.blockHeight)
  {
    hide RowsFor, KeyOf;
    if RowsFor(BlocksTable, tx).Success? {
      RowsForAreFiled(BlocksTable, tx);
      if RowsFor(BlocksTable, tx).value != [] {
        BlockKeyIsHeight(tx);
      }
    }
  }

  lemma {:induction false} BlockKeys(chain: Chain, sent: seq<Message>, n: nat, k: Key)
    ensures (exists i :: 0 <= i < |ExpectedBelow(chain, sent, BlocksTable, n)|
              && KeyOf(ExpectedBelow(chain, sent, BlocksTable, n)[i]) == k)
      <==> exists v: nat :: v < n && GivesBlock(chain, sent, v) && HeightKey(chain(v).blockHeight) == k
  {
    hide Given, KeyOf, Wanted;
    if n > 0 {
      BlockKeys(chain, sent, n - 1, k);
      GivenBlock(chain(n - 1));
      var before, rows := ExpectedBelow(chain, sent, BlocksTable, n - 1), ExpectedBelow(chain, sent, BlocksTable, n);
      assert forall i :: 0 <= i < |before| ==> rows[i] == before[i];
      if GivesBlock(chain, sent, n - 1) {
        assert rows[|before|] == Given(BlocksTable, chain(n - 1))[0];
      } else {
        assert rows == before;
      }
      if i :| 0 <= i < |rows| && KeyOf(rows[i]) == k {
        if i < |before| {
          assert KeyOf(before[i]) == k;
        } else {
          assert GivesBlock(chain, sent, n - 1);
        }
      }
      if i :| 0 <= i < |before| && KeyOf(before[i]) == k {
        assert KeyOf(rows[i]) == k;
      }
    }
  }

  /** In the blocks table the expected rows' keys are distinct exactly when the heights are. */
  lemma {:induction false} KeysDistinctByHeight(chain: Chain, sent: seq<Message>, n: nat)
    ensures KeysDistinct(ExpectedBelow(chain, sent, BlocksTable, n)) <==> HeightsDistinct(chain, sent, n)
  {
    hide Given, KeyOf, Wanted, GivesBlock;
    if n > 0 {
      KeysDistinctByHeight(chain, sent, n - 1);
      GivenBlock(chain(n - 1));
      var before, more := ExpectedBelow(chain, sent, BlocksTable, n - 1), Given(BlocksTable, chain(n - 1));
      GivesBlockUnfolds(chain, sent, n - 1);
      if GivesBlock(chain, sent, n - 1) {
        var k := HeightKey(chain(n - 1).blockHeight);
        BlockKeys(chain, sent, n - 1, k);
        OneMoreKey(before, more[0]);
        assert before + more == before + [more[0]];
      } else {
        assert before + [] == before;
      }
    }
  }

  lemma {:induction false} GivesBlockUnfolds(chain: Chain, sent: seq<Message>, v: nat)
    ensures GivesBlock(chain, sent, v) <==> If(Wanted(sent, BlocksTable, v), Given(BlocksTable, chain(v))) != []
    ensures GivesBlock(chain, sent, v) ==> Wanted(sent, BlocksTable, v)
  {
    hide Given, Wanted;
  }

  lemma {:induction false} OneMoreKey(rows: seq<Row>, r: Row)
    ensures KeysDistinct(rows + [r]) <==> KeysDistinct(rows) && forall i :: 0 <= i < |rows| ==> KeyOf(rows[i]) != KeyOf(r)
  {
    hide KeyOf;
    if KeysDistinct(rows + [r]) {
      forall i | 0 <= i < |rows| ensures KeyOf(rows[i]) != KeyOf(r) {
        assert KeyOf((rows + [r])[i]) != KeyOf((rows + [r])[|rows|]);
      }
      forall i, j | 0 <= i < j < |rows| ensures KeyOf(rows[i]) != KeyOf(rows[j]) {
        assert KeyOf((rows + [r])[i]) != KeyOf((rows + [r])[j]);
      }
    }
  }

  /** Positionally keyed tables always have distinct keys. */
  lemma {:induction false} PositionalKeysDistinct(chain: Chain, sent: seq<Message>, t: Table, n: nat)
    requires IsChain(chain) && Positional(t)
    ensures KeysDistinct(ExpectedBelow(chain, sent, t, n))
  {
    hide RowsFor, KeysDistinct, IsChain, Wanted;
    forall v: nat | v < n && Wanted(sent, t, v) ensures KeysDistinct(Given(t, chain(v))) {
      if RowsFor(t, chain(v)).Success? {
        TransactionKeysDistinct(t, chain(v));
      } else {
        NoKeys();
      }
    }
    KeysDistinctPerTransaction(chain, sent, t, n);
  }

  /** No two block-metadata transactions of the ledger share a height. */
  ghost predicate DistinctHeights(chain: Chain) {
    forall v: nat, w: nat | v < w :: chain(v).blockHeight == chain(w).blockHeight ==>
      Given(BlocksTable, chain(v)) == [] || Given(BlocksTable, chain(w)) == []
  }

  /** Positional tables need no condition, blocks need distinct heights, and signatures distinct keys in each transaction. */
  lemma {:induction false} KeysAreDistinct(chain: Chain, sent: seq<Message>, t: Table)
    requires IsChain(chain)
    requires t.BlocksTable? ==> DistinctHeights(chain)
    requires t.SignaturesTable? ==> forall v: nat :: KeysDistinct(Given(SignaturesTable, chain(v)))
    ensures KeysDistinct(ExpectedRows(chain, sent, t))
  {
    hide Given, KeysDistinct, IsChain, Wanted, ExpectedBelow;
    if t.BlocksTable? {
      KeysDistinctByHeight(chain, sent, Bound(sent));
    } else if t.SignaturesTable? {
      KeysDistinctPerTransaction(chain, sent, t, Bound(sent));
    } else {
      PositionalKeysDistinct(chain, sent, t, Bound(sent));
    }
  }

  // MERGEs after quiescence

  /** A settled table whose expected keys are distinct holds copies of exactly the expected rows. */
  lemma {:induction false} SettledCopies(chain: Chain, s: World, t: Table)
    requires IsChain(chain) && Settled(chain, s, t) && KeysDistinct(ExpectedRows(chain, s.sent, t))
    ensures Copies(s.tables.At(t), ExpectedRows(chain, s.sent, t))
  {
    hide IsChain, KeyOf, IsExpected, ExpectedRows, Extractable, MessageRows, Covers;
    var rows := ExpectedRows(chain, s.sent, t);
    forall row ensures row in s.tables.At(t) <==> row in rows {
      ExpectedExactly(chain, s.sent, t, row);
      if row in rows {
        var id :| 0 <= id < |s.sent| && Covers(s.sent[id].range, row.version) && s.sent[id].Options().Does(t);
        MessageRowsExactly(chain, s.sent[id], t, row);
        assert HoldsMessage(chain, s.tables.At(t), s.sent[id], t);
        assert HasKeyIn(s.tables.At(t), KeyOf(row));
        var r :| r in s.tables.At(t) && KeyOf(r) == KeyOf(row);
        ExpectedExactly(chain, s.sent, t, r);
        SameListed(rows, r, row);
      }
    }
  }

  lemma {:induction false} SameListed(rows: seq<Row>, r: Row, s: Row)
    requires KeysDistinct(rows) && r in rows && s in rows && KeyOf(r) == KeyOf(s)
    ensures r == s
  {
    hide KeyOf;
    var i :| 0 <= i < |rows| && rows[i] == r;
    var j :| 0 <= j < |rows| && rows[j] == s;
  }

  function Once(b: bool): nat {
    if b then 1 else 0
  }

  /** Main result. In any run, once every message is acknowledged, none only short, MERGEs over any days
      leave every expected row of those days exactly once, keep the others as they were, and leave nothing else,
      provided the expected rows' keys are distinct. */
  lemma {:induction false} MergesLeaveExpectedRows(chain: Chain, es: seq<Protocol.Event>, t: Table, ws: seq<Window>,
                                                   tables: seq<multiset<Row>>, row: Row)
    requires IsChain(chain) && Run(chain, Start, es).Some?
    requires Quiescent(Run(chain, Start, es).value) && LeftShort(chain, es) == {}
    requires MergedAll(ws, tables) && tables[0] == Run(chain, Start, es).value.tables.At(t)
    requires KeysDistinct(ExpectedRows(chain, Run(chain, Start, es).value.sent, t))
    ensures row in tables[|ws|] <==> Wanted(Run(chain, Start, es).value.sent, t, row.version) && IsExpected(chain, t, row)
    ensures InSome(ws, row) ==>
      tables[|ws|][row] == Once(Wanted(Run(chain, Start, es).value.sent, t, row.version) && IsExpected(chain, t, row))
    ensures !InSome(ws, row) ==> tables[|ws|][row] == tables[0][row]
  {
    hide IsChain, Run, LeftShort, Quiescent, Settled, ExpectedRows, IsExpected, Wanted, Merged, InWindow, KeyOf, Copies;
    var s := Run(chain, Start, es).value;
    var rows := ExpectedRows(chain, s.sent, t);
    QuiescentRunSettles(chain, es, t);
    SettledCopies(chain, s, t);
    DistinctTellsApart(ws, rows);
    MergesKeepListed(ws, tables, rows, |ws|);
    CopiesAt(tables[|ws|], rows, row);
    ExpectedExactly(chain, s.sent, t, row);
    MergesNeverAdd(ws, tables, 0, |ws|, row);
  }

  lemma {:induction false} CopiesAt(table: multiset<Row>, rows: seq<Row>, row: Row)
    requires Copies(table, rows)
    ensures row in table <==> row in rows
  {
  }

  lemma {:induction false} DistinctTellsApart(ws: seq<Window>, rows: seq<Row>)
    requires KeysDistinct(rows)
    ensures AllTellApart(ws, rows)
  {
    hide KeyOf, InWindow;
  }

  /** When the days' windows together hold the expected rows, the MERGEs leave exactly the expected rows if and only if
      the table held each of them and no day holds two of one key. Where rows of one key share their days (blocks of one
      height may not), that is so if and only if the keys are distinct. */
  lemma {:induction false} MergesLeaveExpectedExactly(chain: Chain, es: seq<Protocol.Event>, t: Table, ws: seq<Window>,
                                                      tables: seq<multiset<Row>>)
    requires IsChain(chain) && Run(chain, Start, es).Some?
    requires Quiescent(Run(chain, Start, es).value) && LeftShort(chain, es) == {}
    requires MergedAll(ws, tables) && tables[0] == Run(chain, Start, es).value.tables.At(t)
    requires forall row :: row in ExpectedRows(chain, Run(chain, Start, es).value.sent, t) ==> InSome(ws, row)
    ensures
      var rows := ExpectedRows(chain, Run(chain, Start, es).value.sent, t);
      && (tables[|ws|] == multiset(rows) <==> AllTellApart(ws, rows) && forall row :: row in rows ==> row in tables[0])
      && ((t.BlocksTable? ==> |ws| == 1) ==> (tables[|ws|] == multiset(rows) <==> KeysDistinct(rows)))
  {
    hide IsChain, Run, LeftShort, Quiescent, Settled, ExpectedRows, IsExpected, Wanted, Merged, InWindow, KeyOf, Copies,
         KeysDistinct, AllTellApart, InSome;
    var s := Run(chain, Start, es).value;
    var rows := ExpectedRows(chain, s.sent, t);
    QuiescentRunSettles(chain, es, t);
    if forall row :: row in rows ==> row in tables[0] {
      SettledHasOnlyExpected(chain, s, t);
      MergesLeaveOneEachExactly(ws, tables, rows);
    } else {
      var row :| row in rows && row !in tables[0];
      MergesNeverAdd(ws, tables, 0, |ws|, row);
      assert row in multiset(rows);
    }
    if KeysDistinct(rows) {
      SettledCopies(chain, s, t);
      CopiesHoldAll(tables[0], rows);
      DistinctTellsApart(ws, rows);
    } else if !t.BlocksTable? || |ws| == 1 {
      SharedKeySharedDay(chain, s.sent, t, ws);
    }
  }

  lemma {:induction false} CopiesHoldAll(table: multiset<Row>, rows: seq<Row>)
    requires Copies(table, rows)
    ensures forall row :: row in rows ==> row in table
  {
  }

  lemma {:induction false} SettledHasOnlyExpected(chain: Chain, s: World, t: Table)
    requires IsChain(chain) && Settled(chain, s, t)
    requires forall row :: row in ExpectedRows(chain, s.sent, t) ==> row in s.tables.At(t)
    ensures Copies(s.tables.At(t), ExpectedRows(chain, s.sent, t))
  {
    hide IsChain, HoldsMessage, IsExpected, ExpectedRows, Wanted;
    forall row | row in s.tables.At(t) ensures row in ExpectedRows(chain, s.sent, t) {
      ExpectedExactly(chain, s.sent, t, row);
    }
  }

  lemma {:induction false} SharedKeySharedDay(chain: Chain, sent: seq<Message>, t: Table, ws: seq<Window>)
    requires IsChain(chain) && !KeysDistinct(ExpectedRows(chain, sent, t)) && (t.BlocksTable? ==> |ws| == 1)
    requires forall row :: row in ExpectedRows(chain, sent, t) ==> InSome(ws, row)
    ensures !AllTellApart(ws, ExpectedRows(chain, sent, t))
  {
    hide IsChain, ExpectedRows, InWindow, KeyOf;
    var rows := ExpectedRows(chain, sent, t);
    var i, j :| 0 <= i < j < |rows| && KeyOf(rows[i]) == KeyOf(rows[j]);
    assert rows[i] in rows && rows[j] in rows;
    var k :| 0 <= k < |ws| && InWindow(ws[k], rows[i]);
    SharedDay(chain, sent, t, ws, rows[i], rows[j], k);
    assert !TellsApart(ws[k], rows);
  }

  lemma {:induction false} SharedDay(chain: Chain, sent: seq<Message>, t: Table, ws: seq<Window>, r: Row, u: Row, k: nat)
    requires IsChain(chain) && r in ExpectedRows(chain, sent, t) && u in ExpectedRows(chain, sent, t) && KeyOf(r) == KeyOf(u)
    requires k < |ws| && InWindow(ws[k], r) && InSome(ws, u) && (t.BlocksTable? ==> |ws| == 1)
    ensures InWindow(ws[k], u)
  {
    hide IsChain, ExpectedRows, IsExpected, KeyOf;
    ExpectedExactly(chain, sent, t, r);
    ExpectedExactly(chain, sent, t, u);
    if !t.BlocksTable? {
      SameKeySameTime(chain, t, r, u);
    }
  }

  /** Every row of the table that an expected row of this key could be lies in the window. */
  ghost predicate OneDay(chain: Chain, t: Table, w: Window, k: Key) {
    forall u :: IsExpected(chain, t, u) && KeyOf(u) == k ==> InWindow(w, u)
  }

  /** With no condition on keys: after a MERGE every expected row of the day has exactly one row of its key, once; in the
      blocks table when all rows of that height lie in the day. */
  lemma {:induction false} OneRowForEveryKey(chain: Chain, es: seq<Protocol.Event>, t: Table, w: Window, after: multiset<Row>,
                                             row: Row)
    returns (r: Row)
    requires IsChain(chain) && Run(chain, Start, es).Some? && (t.BlocksTable? ==> OneDay(chain, t, w, KeyOf(row)))
    requires Quiescent(Run(chain, Start, es).value) && LeftShort(chain, es) == {}
    requires Merged(w, Run(chain, Start, es).value.tables.At(t), after) && InWindow(w, row)
    requires Wanted(Run(chain, Start, es).value.sent, t, row.version) && IsExpected(chain, t, row)
    ensures after[r] == 1 && KeyOf(r) == KeyOf(row) && IsExpected(chain, t, r)
    ensures forall u :: u in after && KeyOf(u) == KeyOf(row) ==> u == r
  {
    hide IsChain, Run, LeftShort, Quiescent, IsExpected, Merged, KeyOf, Extractable, MessageRows, Covers, InWindow;
    var s := Run(chain, Start, es).value;
    var table := s.tables.At(t);
    QuiescentRunSettles(chain, es, t);
    KeyInOneDay(chain, t, w, row);
    var id :| 0 <= id < |s.sent| && Covers(s.sent[id].range, row.version) && s.sent[id].Options().Does(t);
    MessageRowsExactly(chain, s.sent[id], t, row);
    assert HoldsMessage(chain, table, s.sent[id], t);
    assert HasKeyIn(table, KeyOf(row));
    var held :| held in table && KeyOf(held) == KeyOf(row);
    assert InWindow(w, held);
    r := OneRowPerKey(w, table, after, held);
    forall u | u in after && KeyOf(u) == KeyOf(row) ensures u == r {
      MergeNeverAdds(w, table, after, u);
      assert InWindow(w, u);
    }
  }

  lemma {:induction false} KeyInOneDay(chain: Chain, t: Table, w: Window, row: Row)
    requires IsChain(chain) && IsExpected(chain, t, row) && InWindow(w, row)
    requires t.BlocksTable? ==> OneDay(chain, t, w, KeyOf(row))
    ensures OneDay(chain, t, w, KeyOf(row))
  {
    hide IsChain, IsExpected, KeyOf;
    if !t.BlocksTable? {
      forall u | IsExpected(chain, t, u) && KeyOf(u) == KeyOf(row) ensures InWindow(w, u) {
        SameKeySameTime(chain, t, row, u);
      }
    }
  }
}
