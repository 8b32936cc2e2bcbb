/** The range protocol: coordinator and backfill messages, competing workers, eight tables, the daily MERGE
    (indexing_coordinator/publish_ranges.py, aptos_config/mod.rs `subscribe_and_extract`, daily_qc_airflow). */
module Protocol {
  import opened Wrappers
  import opened Tables
  import opened RangeExtraction
  import opened Coordinator
  import opened Dedupe

  // Expected rows

  /** The ledger: the transaction at every version. */
  type Chain = nat -> Transaction

  ghost predicate IsChain(chain: Chain) {
    forall v: nat :: chain(v).version == v
  }

  function Segment(chain: Chain, lo: nat, hi: nat): (txs: seq<Transaction>)
    ensures |txs| == if lo <= hi then hi - lo + 1 else 0
    decreases hi - lo + 1
  {
    if lo > hi then [] else [chain(lo)] + Segment(chain, lo + 1, hi)
  }

  lemma {:induction false} SegmentAt(chain: Chain, lo: nat, hi: nat, i: nat)
    requires lo <= hi && i <= hi - lo
    ensures Segment(chain, lo, hi)[i] == chain(lo + i)
    decreases i
  {
    if i > 0 {
      SegmentAt(chain, lo + 1, hi, i - 1);
    }
  }

  /** A range message: its versions, both ends included, and the tables it asks for; all of them when it names none. */
  datatype Message = Message(range: Range, options: Option<TableOptions>) {

    function Options(): TableOptions {
      options.GetOr(NewAll)
    }
  }

  /** What the coordinator and the backfill send: no table options. */
  function AllTables(r: Range): Message {
    Message(r, None)
  }

  /** The message's table options let every one of its versions be extracted. */
  predicate Extractable(chain: Chain, m: Message) {
    AllConvert(m.Options(), Segment(chain, m.range.start, m.range.end))
  }

  /** The rows a worker publishes to a table for a message. */
  function MessageRows(chain: Chain, m: Message, t: Table): seq<Row> {
    If(m.Options().Does(t), TableRows(Segment(chain, m.range.start, m.range.end), t))
  }

  /** A row its table takes from the transaction at the row's own version. */
  predicate IsExpected(chain: Chain, t: Table, row: Row) {
    row in Given(t, chain(row.version))
  }

  lemma {:induction false} TableRowsExactly(txs: seq<Transaction>, t: Table, row: Row)
    ensures row in TableRows(txs, t) <==> exists i :: 0 <= i < |txs| && row in Given(t, txs[i])
  {
    hide Given;
    if txs != [] {
      TableRowsExactly(txs[1..], t, row);
      if row in TableRows(txs[1..], t) {
        var i :| 0 <= i < |txs[1..]| && row in Given(t, txs[1..][i]);
        assert row in Given(t, txs[i + 1]);
      }
      if i :| 0 < i < |txs| && row in Given(t, txs[i]) {
        assert txs[1..][i - 1] == txs[i];
      }
    }
  }

  lemma {:induction false} GivenVersion(tx: Transaction, t: Table, row: Row)
    requires row in Given(t, tx)
    ensures RowsFor(t, tx).Success? && row.version == tx.version && TableOf(row.fields) == t && tx.timestamp == Some(row.unix)
  {
    hide RowsFor;
    RowsForAreFiled(t, tx);
  }

  /** A message's rows are the expected rows of its versions, for the tables it asks for. */
  lemma {:induction false} MessageRowsExactly(chain: Chain, m: Message, t: Table, row: Row)
    requires IsChain(chain)
    ensures row in MessageRows(chain, m, t) <==>
      m.Options().Does(t) && Covers(m.range, row.version) && IsExpected(chain, t, row)
  {
    hide Given, Segment, TableRows;
    var txs := Segment(chain, m.range.start, m.range.end);
    TableRowsExactly(txs, t, row);
    if row in TableRows(txs, t) {
      var i :| 0 <= i < |txs| && row in Given(t, txs[i]);
      GivenVersion(txs[i], t, row);
      SegmentAt(chain, m.range.start, m.range.end, i);
    }
    if Covers(m.range, row.version) && IsExpected(chain, t, row) {
      SegmentAt(chain, m.range.start, m.range.end, row.version - m.range.start);
    }
  }

  /** A stream that follows the chain from a version on, however it is cut into responses, wherever it stops and
      whatever ends it. */
  ghost predicate Follows(chain: Chain, pulls: seq<RangeExtraction.Pull>, start: nat) {
    forall i :: 0 <= i < |Flat(pulls)| ==> Flat(pulls)[i] == chain(start + i)
  }

  lemma {:induction false} FollowsInOrder(chain: Chain, pulls: seq<RangeExtraction.Pull>, start: nat)
    requires IsChain(chain) && Follows(chain, pulls, start)
    ensures InOrder(Flat(pulls), start)
  {
    hide Flat;
    forall i | 0 <= i < |Flat(pulls)| ensures Flat(pulls)[i].version == start + i {
      assert Flat(pulls)[i] == chain(start + i);
    }
  }

  lemma {:induction false} FollowedRange(chain: Chain, m: Message, pulls: seq<RangeExtraction.Pull>)
    requires IsChain(chain) && Follows(chain, pulls, m.range.start) && Delivers(pulls, m.range.start, m.range.end)
    ensures RangeTransactions(pulls, m.range.start, m.range.end) == Segment(chain, m.range.start, m.range.end)
  {
    hide Flat, Segment;
    forall i | 0 <= i <= m.range.end - m.range.start
      ensures RangeTransactions(pulls, m.range.start, m.range.end)[i] == Segment(chain, m.range.start, m.range.end)[i]
    {
      SegmentAt(chain, m.range.start, m.range.end, i);
    }
  }

  /** On a stream that follows the chain past the message's end, the worker's buffers hold the message's rows. */
  lemma {:induction false} WorkerBuffersHoldMessageRows(chain: Chain, m: Message, pulls: seq<RangeExtraction.Pull>)
    requires IsChain(chain) && Follows(chain, pulls, m.range.start) && Delivers(pulls, m.range.start, m.range.end)
    requires !StopsEmpty(pulls, m.range.start, m.range.end) && Extractable(chain, m)
    ensures
      var ending := RunStream(m.Options(), m.range.end, pulls, m.range.start, Empty);
      ending.Reached? && forall t: Table :: ending.records.At(t) == MessageRows(chain, m, t)
  {
    hide RunStream, Segment, Flat, AllConvert, TableRows;
    FollowedRange(chain, m, pulls);
    RangePublishesItsRows(m.Options(), m.range.start, m.range.end, pulls);
  }

  // The transition system

  datatype Status = Deliverable | Outstanding | Acked

  /** A worker's unfinished job: its message, how many tables it has published, and whether all their rows landed. */
  datatype Job = Job(message: nat, stage: nat, whole: bool)

  datatype World = World(
    sent: seq<Message>,           // every range message, in the order they were published
    status: seq<Status>,          // one for each message
    jobs: map<nat, Job>,          // what each busy worker is doing
    tables: ByTable<multiset<Row>>)

  datatype Event =
    | Send(message: Message)
    | Pull(worker: nat, id: nat)
    | PublishPart(worker: nat, landed: multiset<Row>)    // some rows of the next table, before a crash
    | PublishTable(worker: nat)               // the next table; nothing when the message does not ask for it
    | PublishLossy(worker: nat, landed: multiset<Row>)   // the next table, its publish returning although rows were lost
    | Ack(worker: nat)
    | AckLost(worker: nat)
    | Nack(worker: nat)
    | NackLost(worker: nat)
    | Crash(worker: nat)
    | Redeliver(id: nat)
    | Merge(table: Table, window: Window, after: multiset<Row>)
    | AckEmpty(worker: nat)                   // the stream ran dry: success reported, nothing published
    | AckEmptyLost(worker: nat)

  const NoRows: ByTable<multiset<Row>> :=
    ByTable(multiset{}, multiset{}, multiset{}, multiset{}, multiset{}, multiset{}, multiset{}, multiset{})

  const Start := World([], [], map[], NoRows)

  function EndJob(s: World, worker: nat, status: seq<Status>): World {
    s.(jobs := s.jobs - {worker}, status := status)
  }

  predicate Busy(s: World, worker: nat) {
    worker in s.jobs && s.jobs[worker].message < |s.sent| == |s.status|
  }

  function MessageOf(s: World, worker: nat): Message
    requires Busy(s, worker)
  {
    s.sent[s.jobs[worker].message]
  }

  /** Extraction has succeeded and a table is left to publish. */
  predicate CanPublish(chain: Chain, s: World, worker: nat) {
    Busy(s, worker) && s.jobs[worker].stage < |PublishOrder| && Extractable(chain, MessageOf(s, worker))
  }

  function NextTable(s: World, worker: nat): Table
    requires Busy(s, worker) && s.jobs[worker].stage < |PublishOrder|
  {
    PublishOrder[s.jobs[worker].stage]
  }

  /** The rows the worker publishes next. */
  function NextRows(chain: Chain, s: World, worker: nat): seq<Row>
    requires Busy(s, worker) && s.jobs[worker].stage < |PublishOrder|
  {
    MessageRows(chain, MessageOf(s, worker), NextTable(s, worker))
  }

  /** The worker publishes next, and these of its rows reach the table. */
  predicate CanLand(chain: Chain, s: World, worker: nat, landed: multiset<Row>) {
    CanPublish(chain, s, worker) && landed <= multiset(NextRows(chain, s, worker))
  }

  function AddRows(tables: ByTable<multiset<Row>>, t: Table, rows: multiset<Row>): ByTable<multiset<Row>> {
    tables.With(t, tables.At(t) + rows)
  }

  /** The next table is published with these rows; `all` says whether none is missing. */
  function Land(s: World, worker: nat, rows: multiset<Row>, all: bool): World
    requires Busy(s, worker) && s.jobs[worker].stage < |PublishOrder|
  {
    var job := s.jobs[worker];
    s.(tables := AddRows(s.tables, NextTable(s, worker), rows),
       jobs := s.jobs[worker := Job(job.message, job.stage + 1, job.whole && all)])
  }

  /** One step, when it is enabled. */
  ghost function Step(chain: Chain, s: World, e: Event): Option<World> {
    match e
    case Send(m) => Some(s.(sent := s.sent + [m], status := s.status + [Deliverable]))
    case Pull(w, id) =>
      if w in s.jobs || id >= |s.status| || s.status[id] != Deliverable then None
      else Some(s.(status := s.status[id := Outstanding], jobs := s.jobs[w := Job(id, 0, true)]))
    case PublishPart(w, landed) =>
      if !CanLand(chain, s, w, landed) then None else Some(s.(tables := AddRows(s.tables, NextTable(s, w), landed)))
    case PublishTable(w) =>
      if !CanPublish(chain, s, w) then None else Some(Land(s, w, multiset(NextRows(chain, s, w)), true))
    case PublishLossy(w, landed) =>
      if !CanLand(chain, s, w, landed) then None
      else Some(Land(s, w, landed, landed == multiset(NextRows(chain, s, w))))
    case Ack(w) =>
      if !Busy(s, w) || s.jobs[w].stage != |PublishOrder| then None
      else Some(EndJob(s, w, s.status[s.jobs[w].message := Acked]))
    case AckLost(w) =>
      if !Busy(s, w) || s.jobs[w].stage != |PublishOrder| then None else Some(EndJob(s, w, s.status))
    case Nack(w) =>
      if !Busy(s, w) || s.jobs[w].stage != 0 then None
      else
        var id := s.jobs[w].message;
        Some(EndJob(s, w, s.status[id := if s.status[id].Acked? then Acked else Deliverable]))
    case NackLost(w) => if !Busy(s, w) || s.jobs[w].stage != 0 then None else Some(EndJob(s, w, s.status))
    case Crash(w) => if w !in s.jobs then None else Some(EndJob(s, w, s.status))
    case Redeliver(id) => if id >= |s.status| then None else Some(s.(status := s.status[id := Deliverable]))
    case Merge(t, window, after) =>
      if !Merged(window, s.tables.At(t), after) then None else Some(s.(tables := s.tables.With(t, after)))
    case AckEmpty(w) =>
      if !Busy(s, w) || s.jobs[w].stage != 0 then None else Some(EndJob(s, w, s.status[s.jobs[w].message := Acked]))
    case AckEmptyLost(w) => if !Busy(s, w) || s.jobs[w].stage != 0 then None else Some(EndJob(s, w, s.status))
  }

  ghost function Run(chain: Chain, s: World, es: seq<Event>): Option<World> {
    if es == [] then Some(s)
    else
      match Run(chain, s, es[..|es| - 1])
      case None => None
      case Some(before) => Step(chain, before, es[|es| - 1])
  }

  // Safety

  ghost predicate HasKeyIn(table: multiset<Row>, k: Key) {
    exists s :: s in table && KeyOf(s) == k
  }

  /** The table holds, for every row of the message, a row with its key. */
  ghost predicate HoldsMessage(chain: Chain, table: multiset<Row>, m: Message, t: Table) {
    Extractable(chain, m) && forall row :: row in MessageRows(chain, m, t) ==> HasKeyIn(table, KeyOf(row))
  }

  /** Some message asks for the table at version v. */
  predicate Wanted(sent: seq<Message>, t: Table, v: int) {
    exists i :: 0 <= i < |sent| && Covers(sent[i].range, v) && sent[i].Options().Does(t)
  }

  /** Every row of a table is an expected row of a version some message asks for. */
  ghost predicate Sound(chain: Chain, sent: seq<Message>, table: multiset<Row>, t: Table) {
    forall row :: row in table ==> IsExpected(chain, t, row) && Wanted(sent, t, row.version)
  }

  /** The first n tables of the publish order hold the message. */
  ghost predicate HoldsUpTo(chain: Chain, tables: ByTable<multiset<Row>>, m: Message, n: nat)
    requires n <= |PublishOrder|
  {
    forall k :: 0 <= k < n ==> HoldsMessage(chain, tables.At(PublishOrder[k]), m, PublishOrder[k])
  }

  /** What every step keeps; `filled` are the messages that some worker has published without loss, `short` those
      acknowledged after publishing less. */
  ghost predicate Inv(chain: Chain, s: World, short: set<nat>, filled: set<nat>) {
    && |s.status| == |s.sent|
    && (forall t: Table :: Sound(chain, s.sent, s.tables.At(t), t))
    && (forall w :: w in s.jobs ==>
          && s.jobs[w].message < |s.sent| && s.jobs[w].stage <= |PublishOrder|
          && (s.jobs[w].whole ==> HoldsUpTo(chain, s.tables, s.sent[s.jobs[w].message], s.jobs[w].stage)))
    && (forall id :: id in filled ==> id < |s.sent| && HoldsUpTo(chain, s.tables, s.sent[id], |PublishOrder|))
    && (forall id :: 0 <= id < |s.sent| && s.status[id].Acked? ==> id in filled || id in short)
  }

  /** The step acknowledges its message after publishing less than its rows: nothing, because the stream ran dry, or
      tables whose publish lost some. */
  predicate AcksShort(s: World, e: Event) {
    (e.AckEmpty? && Busy(s, e.worker)) || (e.Ack? && Busy(s, e.worker) && !s.jobs[e.worker].whole)
  }

  /** The step acknowledges its message, or tries to, after publishing all its rows. */
  predicate AcksWhole(s: World, e: Event) {
    (e.Ack? || e.AckLost?) && Busy(s, e.worker) && s.jobs[e.worker].whole
  }

  function ShortBy(s: World, e: Event): set<nat> {
    if AcksShort(s, e) then {s.jobs[e.worker].message} else {}
  }

  function FilledBy(s: World, e: Event): set<nat> {
    if AcksWhole(s, e) then {s.jobs[e.worker].message} else {}
  }

  ghost function Short(chain: Chain, es: seq<Event>): set<nat> {
    if es == [] then {}
    else
      Short(chain, es[..|es| - 1]) +
      match Run(chain, Start, es[..|es| - 1])
      case None => {}
      case Some(before) => ShortBy(before, es[|es| - 1])
  }

  ghost function Filled(chain: Chain, es: seq<Event>): set<nat> {
    if es == [] then {}
    else
      Filled(chain, es[..|es| - 1]) +
      match Run(chain, Start, es[..|es| - 1])
      case None => {}
      case Some(before) => FilledBy(before, es[|es| - 1])
  }

  /** The messages whose every acknowledgement in the run came after publishing less than their rows. */
  ghost function LeftShort(chain: Chain, es: seq<Event>): set<nat> {
    Short(chain, es) - Filled(chain, es)
  }

  /** Every held key is still held. */
  ghost predicate Grows(a: ByTable<multiset<Row>>, b: ByTable<multiset<Row>>) {
    forall t: Table, k :: HasKeyIn(a.At(t), k) ==> HasKeyIn(b.At(t), k)
  }

  lemma {:induction false} HoldsGrows(chain: Chain, a: ByTable<multiset<Row>>, b: ByTable<multiset<Row>>, m: Message, n: nat)
    requires n <= |PublishOrder| && Grows(a, b) && HoldsUpTo(chain, a, m, n)
    ensures HoldsUpTo(chain, b, m, n)
  {
    hide KeyOf, HasKeyIn, Extractable, MessageRows;
    forall k | 0 <= k < n ensures HoldsMessage(chain, b.At(PublishOrder[k]), m, PublishOrder[k]) {
      assert HoldsMessage(chain, a.At(PublishOrder[k]), m, PublishOrder[k]);
    }
  }

  lemma {:induction false} AddRowsGrows(a: ByTable<multiset<Row>>, t: Table, rows: multiset<Row>)
    ensures Grows(a, AddRows(a, t, rows))
    ensures forall row :: row in rows ==> HasKeyIn(AddRows(a, t, rows).At(t), KeyOf(row))
  {
    hide KeyOf;
    var b := AddRows(a, t, rows);
    forall u: Table, k | HasKeyIn(a.At(u), k) ensures HasKeyIn(b.At(u), k) {
      var s :| s in a.At(u) && KeyOf(s) == k;
      assert s in b.At(u);
    }
    forall row | row in rows ensures HasKeyIn(b.At(t), KeyOf(row)) {
      assert row in b.At(t);
    }
  }

  lemma {:induction false} MergeGrows(a: ByTable<multiset<Row>>, t: Table, window: Window, after: multiset<Row>)
    requires Merged(window, a.At(t), after)
    ensures Grows(a, a.With(t, after))
    ensures forall row :: row in after ==> row in a.At(t)
  {
    hide KeyOf, InWindow;
    forall u: Table, k | HasKeyIn(a.At(u), k) ensures HasKeyIn(a.With(t, after).At(u), k) {
      var s :| s in a.At(u) && KeyOf(s) == k;
      if u == t {
        if InWindow(window, s) {
          assert Represented(window, s, after);
        } else {
          assert s in after;
        }
      }
    }
    forall row | row in after ensures row in a.At(t) {
      if !InWindow(window, row) {
        assert after[row] == a.At(t)[row];
      }
    }
  }

  /** Publishing rows of a sent message keeps its table sound. */
  lemma {:induction false} PublishedRowsAreSound(chain: Chain, sent: seq<Message>, id: nat, table: multiset<Row>, t: Table,
                                                 landed: multiset<Row>)
    requires IsChain(chain) && id < |sent| && landed <= multiset(MessageRows(chain, sent[id], t))
    requires Sound(chain, sent, table, t)
    ensures Sound(chain, sent, table + landed, t)
  {
    hide IsExpected, MessageRows, IsChain;
    var rows := MessageRows(chain, sent[id], t);
    forall row | row in table + landed ensures IsExpected(chain, t, row) && Wanted(sent, t, row.version) {
      if row !in table {
        assert row in multiset(rows);
        assert row in rows;
        MessageRowsExactly(chain, sent[id], t, row);
        assert Covers(sent[id].range, row.version);
      }
    }
  }

  lemma {:induction false} WantedStays(sent: seq<Message>, m: Message, t: Table, v: int)
    requires Wanted(sent, t, v)
    ensures Wanted(sent + [m], t, v)
  {
    var i :| 0 <= i < |sent| && Covers(sent[i].range, v) && sent[i].Options().Does(t);
    assert Covers((sent + [m])[i].range, v);
  }

  lemma {:induction false} SentGrowsSound(chain: Chain, sent: seq<Message>, m: Message, table: multiset<Row>, t: Table)
    requires Sound(chain, sent, table, t)
    ensures Sound(chain, sent + [m], table, t)
  {
    hide IsExpected, Wanted;
    forall row | row in table ensures IsExpected(chain, t, row) && Wanted(sent + [m], t, row.version) {
      WantedStays(sent, m, t, row.version);
    }
  }

  /** The parts of the invariant that the tables carry. */
  lemma {:induction false} TablesChange(chain: Chain, s: World, s': World, short: set<nat>, filled: set<nat>)
    requires Inv(chain, s, short, filled) && Grows(s.tables, s'.tables)
    requires s'.sent == s.sent && s'.status == s.status && s'.jobs == s.jobs
    requires forall t: Table :: Sound(chain, s.sent, s'.tables.At(t), t)
    ensures Inv(chain, s', short, filled)
  {
    hide Sound, Grows, HoldsUpTo;
    forall w | w in s'.jobs && s'.jobs[w].whole
      ensures HoldsUpTo(chain, s'.tables, s'.sent[s'.jobs[w].message], s'.jobs[w].stage)
    {
      HoldsGrows(chain, s.tables, s'.tables, s.sent[s.jobs[w].message], s.jobs[w].stage);
    }
    forall id | id in filled ensures HoldsUpTo(chain, s'.tables, s'.sent[id], |PublishOrder|) {
      HoldsGrows(chain, s.tables, s'.tables, s.sent[id], |PublishOrder|);
    }
  }

  lemma {:induction false} AddKeepsInv(chain: Chain, s: World, w: nat, landed: multiset<Row>, short: set<nat>, filled: set<nat>)
    requires IsChain(chain) && Inv(chain, s, short, filled) && CanLand(chain, s, w, landed)
    ensures Inv(chain, s.(tables := AddRows(s.tables, NextTable(s, w), landed)), short, filled)
  {
    hide Extractable, MessageRows, HoldsUpTo, Sound, IsChain, Grows;
    var t := NextTable(s, w);
    AddRowsGrows(s.tables, t, landed);
    PublishedRowsAreSound(chain, s.sent, s.jobs[w].message, s.tables.At(t), t, landed);
    TablesChange(chain, s, s.(tables := AddRows(s.tables, t, landed)), short, filled);
  }

  /** Publishing a table, with or without loss, keeps the invariant. */
  lemma {:induction false} LandKeepsInv(chain: Chain, s: World, w: nat, landed: multiset<Row>, all: bool, short: set<nat>,
                                        filled: set<nat>)
    requires IsChain(chain) && Inv(chain, s, short, filled) && CanLand(chain, s, w, landed)
    requires all ==> landed == multiset(NextRows(chain, s, w))
    ensures Inv(chain, Land(s, w, landed, all), short, filled)
  {
    hide Extractable, MessageRows, Sound, IsChain, Grows, HasKeyIn, KeyOf, AddRows;
    var t, m, k := NextTable(s, w), MessageOf(s, w), s.jobs[w].stage;
    AddKeepsInv(chain, s, w, landed, short, filled);
    AddRowsGrows(s.tables, t, landed);
    var tables := AddRows(s.tables, t, landed);
    var mid := s.(tables := tables);
    if s.jobs[w].whole && all {
      assert HoldsMessage(chain, tables.At(t), m, t);
      assert HoldsUpTo(chain, mid.tables, m, k);
      assert HoldsUpTo(chain, tables, m, k + 1);
    }
  }

  /** Every step keeps the invariant; acknowledgements add their messages to those published without loss, or to those
      published short. */
  lemma {:induction false} StepKeepsInv(chain: Chain, s: World, e: Event, short: set<nat>, filled: set<nat>)
    requires IsChain(chain) && Inv(chain, s, short, filled) && Step(chain, s, e).Some?
    ensures Inv(chain, Step(chain, s, e).value, short + ShortBy(s, e), filled + FilledBy(s, e))
  {
    hide Extractable, MessageRows, Sound, IsChain, Grows, HasKeyIn, KeyOf, HoldsUpTo, AddRows, Merged, Land;
    assert !e.AckEmpty? && !e.Ack? ==> short + ShortBy(s, e) == short;
    assert !e.Ack? && !e.AckLost? ==> filled + FilledBy(s, e) == filled;
    match e
    case Send(m) =>
      forall t: Table ensures Sound(chain, s.sent + [m], s.tables.At(t), t) {
        SentGrowsSound(chain, s.sent, m, s.tables.At(t), t);
      }
    case Pull(_, _) => PullKeepsInv(chain, s, e, short, filled);
    case PublishPart(w, landed) => AddKeepsInv(chain, s, w, landed, short, filled);
    case PublishTable(w) => LandKeepsInv(chain, s, w, multiset(NextRows(chain, s, w)), true, short, filled);
    case PublishLossy(w, landed) =>
      LandKeepsInv(chain, s, w, landed, landed == multiset(NextRows(chain, s, w)), short, filled);
    case Merge(t, window, after) =>
      MergeGrows(s.tables, t, window, after);
      forall u: Table ensures Sound(chain, s.sent, s.tables.With(t, after).At(u), u) {
        MergedIsSound(chain, s.sent, s.tables.At(t), after, t);
      }
      TablesChange(chain, s, s.(tables := s.tables.With(t, after)), short, filled);
    case _ =>
  }

  lemma {:induction false} PullKeepsInv(chain: Chain, s: World, e: Event, short: set<nat>, filled: set<nat>)
    requires e.Pull? && Inv(chain, s, short, filled) && Step(chain, s, e).Some?
    ensures Inv(chain, Step(chain, s, e).value, short, filled)
  {
    hide Extractable, MessageRows, Sound, HoldsMessage;
  }

  lemma {:induction false} MergedIsSound(chain: Chain, sent: seq<Message>, table: multiset<Row>, after: multiset<Row>, t: Table)
    requires Sound(chain, sent, table, t) && forall row :: row in after ==> row in table
    ensures Sound(chain, sent, after, t)
  {
    hide IsExpected, Wanted;
  }

  /** An acknowledgement that comes short may count as a publish without loss exactly when every table holds the message
      anyway. */
  lemma {:induction false} ShortAckKeepsExactly(chain: Chain, s: World, e: Event, short: set<nat>, filled: set<nat>)
    requires Inv(chain, s, short, filled) && AcksShort(s, e) && Step(chain, s, e).Some?
    ensures Inv(chain, Step(chain, s, e).value, short, filled + {s.jobs[e.worker].message}) <==>
      HoldsUpTo(chain, s.tables, MessageOf(s, e.worker), |PublishOrder|)
  {
    hide Sound, HoldsUpTo, Extractable, Merged, MessageRows;
    var s', id := Step(chain, s, e).value, s.jobs[e.worker].message;
    assert s' == EndJob(s, e.worker, s.status[id := Acked]);
    assert s'.sent[id] == MessageOf(s, e.worker) && s'.tables == s.tables;
    assert id in filled + {id};
  }

  lemma {:induction false} StartInv(chain: Chain)
    ensures Inv(chain, Start, {}, {})
  {
    hide IsExpected;
  }

  /** Every run keeps the invariant. */
  lemma {:induction false} RunsKeepInv(chain: Chain, es: seq<Event>)
    requires IsChain(chain) && Run(chain, Start, es).Some?
    ensures Inv(chain, Run(chain, Start, es).value, Short(chain, es), Filled(chain, es))
  {
    hide Step, Inv, IsChain, ShortBy, FilledBy;
    if es == [] {
      StartInv(chain);
    } else {
      var before := es[..|es| - 1];
      RunsKeepInv(chain, before);
      StepKeepsInv(chain, Run(chain, Start, before).value, es[|es| - 1], Short(chain, before), Filled(chain, before));
    }
  }

  /** What the outside world and a worker's replies can do, in any state, and that they touch nothing else: a crash at any
      moment, a redelivery of any message, a nack or an ack on a dry stream before anything is published, an ack after all
      tables, and each reply lost. */
  lemma {:induction false} RepliesAndFailures(chain: Chain, s: World, w: nat, id: nat)
    requires w in s.jobs && Busy(s, w)
    ensures
      var job, idle := s.jobs[w], s.jobs - {w};
      var status := s.status[job.message];
      && Step(chain, s, Crash(w)) == Some(s.(jobs := idle))
      && (Step(chain, s, Redeliver(id)).Some? <==> id < |s.status|)
      && (id < |s.status| ==> Step(chain, s, Redeliver(id)).value == s.(status := s.status[id := Deliverable]))
      && (forall e | e in {Nack(w), NackLost(w), AckEmpty(w), AckEmptyLost(w)} :: Step(chain, s, e).Some? <==> job.stage == 0)
      && (forall e | e in {Ack(w), AckLost(w)} :: Step(chain, s, e).Some? <==> job.stage == 8)
      && (job.stage == 0 ==>
            && Step(chain, s, Nack(w)).value
                 == s.(jobs := idle, status := s.status[job.message := if status == Acked then Acked else Deliverable])
            && Step(chain, s, NackLost(w)).value == s.(jobs := idle) == Step(chain, s, AckEmptyLost(w)).value
            && Step(chain, s, AckEmpty(w)).value == s.(jobs := idle, status := s.status[job.message := Acked]))
      && (job.stage == 8 ==>
            && Step(chain, s, Ack(w)).value == s.(jobs := idle, status := s.status[job.message := Acked])
            && Step(chain, s, AckLost(w)).value == s.(jobs := idle))
  {
    hide CanPublish, CanLand, Merged;
  }

  /** A worker takes a message exactly when it is idle and the message is deliverable; a worker that is idle does nothing else. */
  lemma {:induction false} IdleWorkerPulls(chain: Chain, s: World, w: nat, id: nat)
    requires w !in s.jobs
    ensures Step(chain, s, Pull(w, id)).Some? <==> id < |s.status| && s.status[id] == Deliverable
    ensures Step(chain, s, Pull(w, id)).Some? ==>
      Step(chain, s, Pull(w, id)).value == s.(status := s.status[id := Outstanding], jobs := s.jobs[w := Job(id, 0, true)])
    ensures forall e | e in {Nack(w), NackLost(w), AckEmpty(w), AckEmptyLost(w), Ack(w), AckLost(w), Crash(w), PublishTable(w)} ::
      Step(chain, s, e).None?
  {
    hide CanLand, Merged;
  }

  /** The step may leave its message short: nothing published, or not all that should be. */
  predicate MayLose(e: Event) {
    e.AckEmpty? || e.PublishLossy?
  }

  predicate AllWhole(s: World) {
    forall w :: w in s.jobs ==> s.jobs[w].whole
  }

  lemma {:induction false} StepStaysWhole(chain: Chain, s: World, e: Event)
    requires AllWhole(s) && !MayLose(e) && Step(chain, s, e).Some?
    ensures AllWhole(Step(chain, s, e).value) && ShortBy(s, e) == {}
  {
    hide CanLand, AddRows, Merged, MessageRows, Extractable;
  }

  /** Without acknowledgements on dry streams and lossy publishes no message is left short. */
  lemma {:induction false} NothingLeftShort(chain: Chain, es: seq<Event>)
    requires Run(chain, Start, es).Some? && forall i :: 0 <= i < |es| ==> !MayLose(es[i])
    ensures AllWhole(Run(chain, Start, es).value) && Short(chain, es) == {} && LeftShort(chain, es) == {}
  {
    hide Step, AllWhole, ShortBy, Filled;
    if es == [] {
      StartIsWhole();
    } else {
      NothingLeftShort(chain, es[..|es| - 1]);
      StepStaysWhole(chain, Run(chain, Start, es[..|es| - 1]).value, es[|es| - 1]);
    }
  }

  lemma {:induction false} StartIsWhole()
    ensures AllWhole(Start)
  {
  }
}
