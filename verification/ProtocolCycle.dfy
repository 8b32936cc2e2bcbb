/** The daily cycle over runs: what the backfill reads, what it sends, and what one day's work leaves. */
module ProtocolCycle {
  import opened Wrappers
  import opened Tables
  import opened RangeExtraction
  import opened Coordinator
  import opened Dedupe
  import opened Protocol
  import opened ProtocolLaws
  import Backfill

  /** The backfill's query: the versions of the transactions rows in a window, in order, duplicates kept. */
  ghost predicate Lists(versions: seq<nat>, table: multiset<Row>, q: Window) {
    Backfill.Ascending(versions) && forall v: nat :: v in versions <==> HasVersion(table, q, v)
  }

  ghost predicate HasVersion(table: multiset<Row>, q: Window, v: nat) {
    exists row :: row in table && InWindow(q, row) && row.version == v
  }

  /** Every range the backfill makes of the listed versions is among the messages. */
  predicate SendsMissing(sent: seq<Message>, versions: seq<nat>)
    requires versions != []
  {
    forall r :: r in Backfill.Runs(Backfill.MissingOf(versions)) ==> AllTables(r) in sent
  }

  // Messages are never taken back

  lemma {:induction false} StepKeepsSent(chain: Chain, s: World, e: Protocol.Event)
    requires Step(chain, s, e).Some?
    ensures |s.sent| <= |Step(chain, s, e).value.sent| && Step(chain, s, e).value.sent[..|s.sent|] == s.sent
  {
    hide CanPublish, MessageRows, Merged;
  }

  lemma {:induction false} SentGrows(chain: Chain, a: seq<Protocol.Event>, b: seq<Protocol.Event>)
    requires Run(chain, Start, a + b).Some?
    ensures Run(chain, Start, a).Some?
    ensures |Run(chain, Start, a).value.sent| <= |Run(chain, Start, a + b).value.sent|
    ensures Run(chain, Start, a + b).value.sent[..|Run(chain, Start, a).value.sent|] == Run(chain, Start, a).value.sent
  {
    hide Step;
    if b == [] {
      assert a + b == a;
    } else {
      var n := |b| - 1;
      assert (a + b)[..|a + b| - 1] == a + b[..n];
      SentGrows(chain, a, b[..n]);
      StepKeepsSent(chain, Run(chain, Start, a + b[..n]).value, b[n]);
    }
  }

  lemma {:induction false} WantedInLonger(sent: seq<Message>, more: seq<Message>, t: Table, v: int)
    requires |sent| <= |more| && more[..|sent|] == sent && Wanted(sent, t, v)
    ensures Wanted(more, t, v)
  {
    var i :| 0 <= i < |sent| && Covers(sent[i].range, v) && sent[i].Options().Does(t);
    assert more[i] == sent[i];
  }

  // What the backfill repairs

  /** From whatever the query saw in a run, the messages then sent want every version of the interval. */
  lemma {:induction false} BackfillCoversInterval(chain: Chain, a: seq<Protocol.Event>, b: seq<Protocol.Event>, q: Window,
                                                  versions: seq<nat>, v: nat)
    requires IsChain(chain) && Run(chain, Start, a + b).Some? && Run(chain, Start, a).Some?
    requires versions != [] && Lists(versions, Run(chain, Start, a).value.tables.transactions, q)
    requires SendsMissing(Run(chain, Start, a + b).value.sent, versions)
    requires versions[0] <= v <= versions[|versions| - 1]
    ensures Wanted(Run(chain, Start, a + b).value.sent, TransactionsTable, v)
  {
    hide IsChain, Run, IsExpected, InWindow, Backfill.Runs, Backfill.MissingOf, LeftShort;
    var s, sent := Run(chain, Start, a).value, Run(chain, Start, a + b).value.sent;
    RunsKeepInv(chain, a);
    assert Sound(chain, s.sent, s.tables.At(TransactionsTable), TransactionsTable);
    SentGrows(chain, a, b);
    Backfill.RangesAreTheMissingRuns(versions);
    if v in versions {
      assert HasVersion(s.tables.transactions, q, v);
      var row :| row in s.tables.transactions && InWindow(q, row) && row.version == v;
      assert row in s.tables.At(TransactionsTable);
      WantedInLonger(s.sent, sent, TransactionsTable, v);
    } else {
      var rs := Backfill.Runs(Backfill.MissingOf(versions));
      assert Covered(rs, v);
      var i :| 0 <= i < |rs| && Covers(rs[i], v);
      assert rs[i] in rs && AllTables(rs[i]) in sent;
      var k :| 0 <= k < |sent| && sent[k] == AllTables(rs[i]);
      assert Covers(sent[k].range, v) && sent[k].Options().Does(TransactionsTable);
    }
  }

  /** The whole cycle, on runs: the backfill queries the table at some point of a run, its ranges are sent later in the
      run, the run acknowledges every message, and MERGEs over any days follow. Then for every version between the first
      and the last one seen the table holds its transactions row and no other of that version, exactly once when its
      time lies in one of the days. */
  lemma {:induction false} DailyCycleIsComplete(chain: Chain, a: seq<Protocol.Event>, b: seq<Protocol.Event>, q: Window, versions: seq<nat>,
                                                ws: seq<Window>, tables: seq<multiset<Row>>, v: nat)
    requires IsChain(chain) && Run(chain, Start, a + b).Some? && Run(chain, Start, a).Some?
    requires versions != [] && Lists(versions, Run(chain, Start, a).value.tables.transactions, q)
    requires SendsMissing(Run(chain, Start, a + b).value.sent, versions)
    requires Quiescent(Run(chain, Start, a + b).value) && LeftShort(chain, a + b) == {}
    requires MergedAll(ws, tables) && tables[0] == Run(chain, Start, a + b).value.tables.transactions
    requires versions[0] <= v <= versions[|versions| - 1]
    ensures |Given(TransactionsTable, chain(v))| == 1 && Given(TransactionsTable, chain(v))[0] in tables[|ws|]
    ensures InSome(ws, Given(TransactionsTable, chain(v))[0]) ==> tables[|ws|][Given(TransactionsTable, chain(v))[0]] == 1
    ensures forall row :: row in tables[|ws|] && row.version == v ==> row == Given(TransactionsTable, chain(v))[0]
  {
    hide IsChain, Run, Given, Quiescent, LeftShort, Lists, SendsMissing, Merged, InWindow, Wanted, KeysDistinct, ExpectedRows,
         Settled;
    var s := Run(chain, Start, a + b).value;
    assert tables[0] == s.tables.At(TransactionsTable);
    BackfillCoversInterval(chain, a, b, q, versions, v);
    QuiescentRunSettles(chain, a + b, TransactionsTable);
    WantedTransaction(chain, s, v);
    KeysAreDistinct(chain, s.sent, TransactionsTable);
    var only := Given(TransactionsTable, chain(v))[0];
    GivenVersionOf(chain, v, only);
    forall row ensures row in tables[|ws|] <==> Wanted(s.sent, TransactionsTable, row.version) && IsExpected(chain, TransactionsTable, row) {
      MergesLeaveExpectedRows(chain, a + b, TransactionsTable, ws, tables, row);
    }
    MergesLeaveExpectedRows(chain, a + b, TransactionsTable, ws, tables, only);
  }

  lemma {:induction false} GivenVersionOf(chain: Chain, v: nat, row: Row)
    requires IsChain(chain) && row in Given(TransactionsTable, chain(v))
    ensures row.version == v && IsExpected(chain, TransactionsTable, row)
  {
    hide Given;
    GivenVersion(chain(v), TransactionsTable, row);
  }

  /** A wanted version of a settled table extracts and has its one row. */
  lemma {:induction false} WantedTransaction(chain: Chain, s: World, v: nat)
    requires IsChain(chain) && Settled(chain, s, TransactionsTable) && Wanted(s.sent, TransactionsTable, v)
    ensures |Given(TransactionsTable, chain(v))| == 1
  {
    hide Convert, Given, Sound, MessageRows, HasKeyIn, KeyOf;
    var id :| 0 <= id < |s.sent| && Covers(s.sent[id].range, v) && s.sent[id].Options().Does(TransactionsTable);
    var r := s.sent[id].range;
    assert HoldsMessage(chain, s.tables.At(TransactionsTable), s.sent[id], TransactionsTable);
    SegmentAt(chain, r.start, r.end, v - r.start);
    ConvertGives(s.sent[id].Options(), chain(v), TransactionsTable);
    TransactionsRowGiven(chain(v));
  }

  // The backfill after the coordinator

  /** Later versions have no earlier times. */
  ghost predicate TimesAscend(chain: Chain) {
    forall v: nat, w: nat | v <= w && chain(v).timestamp.Some? && chain(w).timestamp.Some? ::
      chain(v).timestamp.value.seconds <= chain(w).timestamp.value.seconds
  }

  predicate Messages(sent: seq<Message>, rs: seq<Range>) {
    |sent| == |rs| && forall i :: 0 <= i < |rs| ==> sent[i] == AllTables(rs[i])
  }

  lemma {:induction false} WantedIsCovered(sent: seq<Message>, rs: seq<Range>, t: Table, v: int)
    requires Messages(sent, rs)
    ensures Wanted(sent, t, v) <==> Covered(rs, v)
  {
    if Wanted(sent, t, v) {
      var i :| 0 <= i < |sent| && Covers(sent[i].range, v) && sent[i].Options().Does(t);
      assert Covers(rs[i], v);
    }
    if Covered(rs, v) {
      var i :| 0 <= i < |rs| && Covers(rs[i], v);
      assert sent[i].Options() == NewAll && sent[i].range == rs[i];
      assert Covers(sent[i].range, v) && sent[i].Options().Does(t);
    }
  }

  /** The version's transactions row lies in the query's window. */
  predicate SeenBy(chain: Chain, q: Window, v: nat) {
    Given(TransactionsTable, chain(v)) != [] && InWindow(q, Given(TransactionsTable, chain(v))[0])
  }

  /** What the query lists once the coordinator's ranges have all been acknowledged. */
  lemma {:induction false} ListedExactly(chain: Chain, es: seq<Protocol.Event>, polls: seq<nat>, q: Window, versions: seq<nat>,
                                         v: nat)
    requires IsChain(chain) && Run(chain, Start, es).Some? && NonDecreasing(-1, polls)
    requires Messages(Run(chain, Start, es).value.sent, Published(-1, polls))
    requires Quiescent(Run(chain, Start, es).value) && LeftShort(chain, es) == {}
    requires Lists(versions, Run(chain, Start, es).value.tables.transactions, q)
    ensures v in versions <==> Covered(Published(-1, polls), v) && SeenBy(chain, q, v)
    ensures Covered(Published(-1, polls), v) ==> Given(TransactionsTable, chain(v)) != []
  {
    hide IsChain, Run, Given, Quiescent, LeftShort, InWindow, KeysDistinct, ExpectedRows, Settled, Published, Covered, Wanted,
         NonDecreasing, Messages;
    var s := Run(chain, Start, es).value;
    WantedIsCovered(s.sent, Published(-1, polls), TransactionsTable, v);
    QuiescentRunSettles(chain, es, TransactionsTable);
    KeysAreDistinct(chain, s.sent, TransactionsTable);
    SettledCopies(chain, s, TransactionsTable);
    if Covered(Published(-1, polls), v) {
      WantedTransaction(chain, s, v);
      var row := Given(TransactionsTable, chain(v))[0];
      GivenVersionOf(chain, v, row);
      ExpectedExactly(chain, s.sent, TransactionsTable, row);
      assert row in s.tables.At(TransactionsTable);
      assert InWindow(q, row) ==> HasVersion(s.tables.transactions, q, v);
    }
    if HasVersion(s.tables.transactions, q, v) {
      var row :| row in s.tables.transactions && InWindow(q, row) && row.version == v;
      assert row in s.tables.At(TransactionsTable);
      ExpectedExactly(chain, s.sent, TransactionsTable, row);
    }
  }

  /** After a run that acknowledged every range of the coordinator's polls, the backfill's ranges hold exactly the
      versions of the interval that the polls passed over or that lie outside the query's window. */
  lemma {:induction false} BackfillHealsSkips(chain: Chain, es: seq<Protocol.Event>, polls: seq<nat>, q: Window,
                                              versions: seq<nat>, v: nat)
    requires IsChain(chain) && Run(chain, Start, es).Some? && NonDecreasing(-1, polls)
    requires Messages(Run(chain, Start, es).value.sent, Published(-1, polls))
    requires Quiescent(Run(chain, Start, es).value) && LeftShort(chain, es) == {}
    requires versions != [] && Lists(versions, Run(chain, Start, es).value.tables.transactions, q)
    ensures Covered(Backfill.Runs(Backfill.MissingOf(versions)), v) <==>
      versions[0] <= v <= versions[|versions| - 1] && (Skipped(-1, polls, v) || !SeenBy(chain, q, v))
  {
    hide IsChain, Run, Given, Quiescent, LeftShort, InWindow, Published, Covered, Wanted, NonDecreasing, Messages, Skipped, SeenBy,
         HasVersion;
    Backfill.RangesAreTheMissingRuns(versions);
    var last := versions[|versions| - 1];
    assert last in versions;
    ListedExactly(chain, es, polls, q, versions, v);
    ListedExactly(chain, es, polls, q, versions, last);
    CoveredExactly(-1, polls, v);
    CoveredExactly(-1, polls, last);
  }

  /** Where times ascend, nothing inside the interval lies outside the window: the backfill sends exactly the skips. */
  lemma {:induction false} BackfillSendsExactlySkips(chain: Chain, es: seq<Protocol.Event>, polls: seq<nat>, q: Window,
                                                     versions: seq<nat>, v: nat)
    requires IsChain(chain) && Run(chain, Start, es).Some? && NonDecreasing(-1, polls) && TimesAscend(chain)
    requires Messages(Run(chain, Start, es).value.sent, Published(-1, polls))
    requires Quiescent(Run(chain, Start, es).value) && LeftShort(chain, es) == {}
    requires versions != [] && Lists(versions, Run(chain, Start, es).value.tables.transactions, q)
    ensures Covered(Backfill.Runs(Backfill.MissingOf(versions)), v) <==>
      versions[0] <= v <= versions[|versions| - 1] && Skipped(-1, polls, v)
  {
    hide IsChain, Run, Given, Quiescent, LeftShort, InWindow, Published, Covered, Wanted, NonDecreasing, Messages, Skipped,
         HasVersion, TimesAscend;
    var first, last := versions[0], versions[|versions| - 1];
    BackfillHealsSkips(chain, es, polls, q, versions, v);
    if first <= v <= last && !Skipped(-1, polls, v) {
      assert first in versions && last in versions;
      ListedExactly(chain, es, polls, q, versions, first);
      ListedExactly(chain, es, polls, q, versions, last);
      ListedExactly(chain, es, polls, q, versions, v);
      CoveredExactly(-1, polls, v);
      CoveredExactly(-1, polls, last);
      TimesBetween(chain, q, first, v, last);
    }
  }

  lemma {:induction false} TimesBetween(chain: Chain, q: Window, u: nat, v: nat, w: nat)
    requires TimesAscend(chain) && u <= v <= w && SeenBy(chain, q, u) && SeenBy(chain, q, w)
    requires Given(TransactionsTable, chain(v)) != []
    ensures SeenBy(chain, q, v)
  {
    hide Given;
    GivenVersion(chain(u), TransactionsTable, Given(TransactionsTable, chain(u))[0]);
    GivenVersion(chain(v), TransactionsTable, Given(TransactionsTable, chain(v))[0]);
    GivenVersion(chain(w), TransactionsTable, Given(TransactionsTable, chain(w))[0]);
  }
}
