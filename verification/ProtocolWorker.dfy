/** The worker's loop as steps of the range protocol (aptos_config/mod.rs `subscribe_and_extract`). */
module ProtocolWorker {
  import opened Wrappers
  import opened Tables
  import opened RangeExtraction
  import opened Coordinator
  import opened Dedupe
  import opened Protocol
  import ProtocolLaws

  const TABLES := |PublishOrder|

  type Stream = Result<seq<RangeExtraction.Pull>, string>

  /** What reaches the tables of the rows a worker hands to the publisher: all of them, or only these. */
  datatype Landing = Everything | Only(rows: ByTable<multiset<Row>>)

  /** What one pull of the subscription brings: an error or nothing, both retried, or a message, with the stream its
      extraction will read, what of its publishes will land, and whether the reply to it gets through. */
  datatype Delivery =
    PullFailed | NoMessage | Delivered(id: nat, message: Message, stream: Stream, landing: Landing, replied: bool)

  /** How extracting a message ends: with its rows, in success without rows, or in an error. */
  datatype Extracted = WithRows | WithoutRows | InError

  function ExtractedBy(m: Message, stream: Stream): Extracted {
    match stream
    case Failure(_) => InError
    case Success(pulls) =>
      match RunStream(m.Options(), m.range.end, pulls, m.range.start, Empty)
      case Stopped(_, _) => InError
      case Exhausted => WithoutRows
      case Reached(_) => if StopsEmpty(pulls, m.range.start, m.range.end) then WithoutRows else WithRows
  }

  predicate Fails(d: Delivery) {
    d.Delivered? && ExtractedBy(d.message, d.stream).InError?
  }

  predicate RunsDry(d: Delivery) {
    d.Delivered? && ExtractedBy(d.message, d.stream).WithoutRows?
  }

  function PublishStep(w: nat, t: Table, landing: Landing): Protocol.Event {
    if landing.Everything? then PublishTable(w) else PublishLossy(w, landing.rows.At(t))
  }

  /** The steps that publish the first n tables. */
  function PublishSteps(w: nat, landing: Landing, n: nat): (es: seq<Protocol.Event>)
    requires n <= TABLES
    ensures |es| == n && forall i :: 0 <= i < n ==> es[i] == PublishStep(w, PublishOrder[i], landing)
  {
    seq(n, i requires 0 <= i < n => PublishStep(w, PublishOrder[i], landing))
  }

  /** The steps of one message whose extraction yields its rows. */
  function JobSteps(w: nat, id: nat, landing: Landing, replied: bool): seq<Protocol.Event> {
    [Pull(w, id)] + PublishSteps(w, landing, TABLES) + [if replied then Ack(w) else AckLost(w)]
  }

  /** The steps of a message that is answered after an error. */
  function NackSteps(w: nat, id: nat, replied: bool): seq<Protocol.Event> {
    [Pull(w, id), if replied then Nack(w) else NackLost(w)]
  }

  /** The steps of a message that is acknowledged with nothing published. */
  function EmptyAckSteps(w: nat, id: nat, replied: bool): seq<Protocol.Event> {
    [Pull(w, id), if replied then AckEmpty(w) else AckEmptyLost(w)]
  }

  function DeliverySteps(w: nat, d: Delivery): seq<Protocol.Event> {
    if !d.Delivered? then []
    else
      match ExtractedBy(d.message, d.stream)
      case WithRows => JobSteps(w, d.id, d.landing, d.replied)
      case WithoutRows => EmptyAckSteps(w, d.id, d.replied)
      case InError => NackSteps(w, d.id, d.replied)
  }

  /** The steps of the loop until it is told to stop or an extraction fails. */
  function WorkerSteps(w: nat, ds: seq<Delivery>): seq<Protocol.Event> {
    if ds == [] then []
    else DeliverySteps(w, ds[0]) + (if Fails(ds[0]) then [] else WorkerSteps(w, ds[1..]))
  }

  function DeliveryPublishes(d: Delivery): seq<Publication> {
    if d.Delivered? && d.stream.Success?
    then RunRange(d.message.Options(), d.message.range.start, d.message.range.end, d.stream.value).published
    else []
  }

  /** What the loop hands to the publisher. */
  function WorkerPublishes(ds: seq<Delivery>): seq<Publication> {
    if ds == [] then [] else DeliveryPublishes(ds[0]) + (if Fails(ds[0]) then [] else WorkerPublishes(ds[1..]))
  }

  predicate SomeFails(ds: seq<Delivery>) {
    ds != [] && (Fails(ds[0]) || SomeFails(ds[1..]))
  }

  /** The call returns an error exactly when extraction ends in one. */
  lemma {:induction false} FailsExactly(d: Delivery)
    requires d.Delivered? && d.stream.Success?
    ensures Fails(d) <==>
      RunRange(d.message.Options(), d.message.range.start, d.message.range.end, d.stream.value).result.Failure?
  {
    hide RunStream, Publications;
  }

  /** One delivery: the call's result decides between ack and nack, and between going on and stopping; of the protocol's
      two acknowledgements it is the one that says whether the rows were published. */
  method HandleDelivery(w: nat, d: Delivery, publisher: StreamPublisher) returns (fails: bool, steps: seq<Protocol.Event>)
    requires d.Delivered? ==> d.message.range.start <= d.message.range.end
    modifies publisher`published
    ensures fails == Fails(d) && steps == DeliverySteps(w, d)
    ensures publisher.published == old(publisher.published) + DeliveryPublishes(d)
  {
    hide RunStream, Publications, ExtractedBy;
    if !d.Delivered? {
      return false, [];
    }
    var r := ExtractRange(d.message.range.start, d.message.range.end, d.stream, d.message.options, publisher);
    if d.stream.Success? {
      FailsExactly(d);
    } else {
      FailsWithoutStream(d);
    }
    if r.Failure? {
      return true, NackSteps(w, d.id, d.replied);
    }
    return false, if RunsDry(d) then EmptyAckSteps(w, d.id, d.replied) else JobSteps(w, d.id, d.landing, d.replied);
  }

  lemma {:induction false} Regroup<T>(a: seq<T>, b: seq<T>, c: seq<T>)
    ensures (a + b) + c == a + (b + c)
  {
  }

  /** The loop's three results, unfolded at its i-th delivery. */
  lemma {:induction false} LoopUnfolds(w: nat, ds: seq<Delivery>, i: nat)
    requires i < |ds|
    ensures WorkerSteps(w, ds[i..]) == DeliverySteps(w, ds[i]) + (if Fails(ds[i]) then [] else WorkerSteps(w, ds[i + 1..]))
    ensures WorkerPublishes(ds[i..]) == DeliveryPublishes(ds[i]) + (if Fails(ds[i]) then [] else WorkerPublishes(ds[i + 1..]))
    ensures SomeFails(ds[i..]) == (Fails(ds[i]) || SomeFails(ds[i + 1..]))
  {
    hide DeliverySteps, DeliveryPublishes, Fails;
    assert ds[i..][0] == ds[i] && ds[i..][1..] == ds[i + 1..];
  }

  /** `subscribe_and_extract` with its termination flag set after the given deliveries: extracts each message, nacks and
      returns the error of the first that fails, acks the others. */
  method SubscribeAndExtract(w: nat, ds: seq<Delivery>, publisher: StreamPublisher)
    returns (failed: bool, steps: seq<Protocol.Event>)
    requires forall i :: 0 <= i < |ds| && ds[i].Delivered? ==> ds[i].message.range.start <= ds[i].message.range.end
    modifies publisher`published
    ensures steps == WorkerSteps(w, ds) && failed == SomeFails(ds)
    ensures publisher.published == old(publisher.published) + WorkerPublishes(ds)
  {
    hide Fails, DeliverySteps, DeliveryPublishes;
    steps := [];
    var i := 0;
    assert ds[0..] == ds && steps + WorkerSteps(w, ds) == WorkerSteps(w, ds);
    while i < |ds|
      invariant i <= |ds| && steps + WorkerSteps(w, ds[i..]) == WorkerSteps(w, ds)
      invariant publisher.published + WorkerPublishes(ds[i..]) == old(publisher.published) + WorkerPublishes(ds)
      invariant SomeFails(ds) == SomeFails(ds[i..])
    {
      var d := ds[i];
      LoopUnfolds(w, ds, i);
      Regroup(steps, DeliverySteps(w, d), if Fails(d) then [] else WorkerSteps(w, ds[i + 1..]));
      Regroup(publisher.published, DeliveryPublishes(d), if Fails(d) then [] else WorkerPublishes(ds[i + 1..]));
      var fails, taken := HandleDelivery(w, d, publisher);
      steps := steps + taken;
      if fails {
        assert steps + [] == steps && publisher.published + [] == publisher.published;
        return true, steps;
      }
      i := i + 1;
    }
    assert ds[|ds|..] == [] && steps + [] == steps && publisher.published + [] == publisher.published;
    return false, steps;
  }

  lemma {:induction false} FailsWithoutStream(d: Delivery)
    requires d.Delivered? && d.stream.Failure?
    ensures Fails(d)
  {
  }

  // When a message is acknowledged, and after what

  /** Exactly when extraction yields the rows, and exactly when it succeeds without them, on a stream that follows the
      chain as far as it goes. */
  lemma {:induction false} ExtractedExactly(chain: Chain, m: Message, pulls: seq<RangeExtraction.Pull>)
    requires IsChain(chain) && m.range.start <= m.range.end && Follows(chain, pulls, m.range.start)
    ensures ExtractedBy(m, Success(pulls)).WithRows? <==>
      !StopsEmpty(pulls, m.range.start, m.range.end) && |Flat(pulls)| > m.range.end - m.range.start && Extractable(chain, m)
    ensures ExtractedBy(m, Success(pulls)).WithoutRows? <==>
      StopsEmpty(pulls, m.range.start, m.range.end)
      || (|Flat(pulls)| <= m.range.end - m.range.start && FirstStatus(pulls).None? && AllConvert(m.Options(), Flat(pulls)))
  {
    hide RunStream, ExtractAll, Flat, AllConvert, StopsEmpty, Segment, FirstStatus;
    var o, start, end := m.Options(), m.range.start, m.range.end;
    if StopsEmpty(pulls, start, end) {
      SingleVersion(pulls, start, end);
      StopsEmptyReaches(o, end, pulls);
    } else {
      FollowsInOrder(chain, pulls, start);
      RunInOrder(o, end, pulls, start, start, Empty);
      var txs := Flat(pulls)[..Taken(|Flat(pulls)|, start, end)];
      if |Flat(pulls)| > end - start {
        FollowedRange(chain, m, pulls);
      } else {
        assert txs == Flat(pulls);
      }
      if AllConvert(o, txs) {
        ExtractAllRefines(o, txs, Empty);
      } else {
        var k := FirstFailure(o, txs);
        ExtractAllFails(o, txs, Empty, k);
      }
    }
  }

  /** A message is acknowledged after the publishes of every table exactly when its stream reached the end of the range
      with the rows; it is acknowledged with no publish at all exactly when its stream ran dry or stopped empty. */
  lemma {:induction false} AckAfterPublishesExactly(chain: Chain, w: nat, d: Delivery)
    requires IsChain(chain) && d.Delivered? && d.stream.Success? && d.message.range.start <= d.message.range.end
    requires Follows(chain, d.stream.value, d.message.range.start)
    ensures DeliverySteps(w, d) == JobSteps(w, d.id, d.landing, d.replied) <==>
      !StopsEmpty(d.stream.value, d.message.range.start, d.message.range.end)
      && |Flat(d.stream.value)| > d.message.range.end - d.message.range.start && Extractable(chain, d.message)
    ensures DeliverySteps(w, d) == EmptyAckSteps(w, d.id, d.replied) <==>
      StopsEmpty(d.stream.value, d.message.range.start, d.message.range.end)
      || (|Flat(d.stream.value)| <= d.message.range.end - d.message.range.start
          && FirstStatus(d.stream.value).None? && AllConvert(d.message.Options(), Flat(d.stream.value)))
  {
    hide ExtractedBy, Flat, AllConvert, StopsEmpty, Extractable, FirstStatus;
    ExtractedExactly(chain, d.message, d.stream.value);
    assert |JobSteps(w, d.id, d.landing, d.replied)| == TABLES + 2;
  }

  predicate IsAck(e: Protocol.Event) {
    e.Ack? || e.AckLost?
  }

  predicate IsEmptyAck(e: Protocol.Event) {
    e.AckEmpty? || e.AckEmptyLost?
  }

  predicate Publishes(e: Protocol.Event, w: nat) {
    (e.PublishTable? || e.PublishLossy?) && e.worker == w
  }

  /** The i-th step, if it acknowledges, follows the publishes of all tables, or directly the pull when nothing was
      published. */
  predicate FollowsItsWork(w: nat, es: seq<Protocol.Event>, i: nat)
    requires i < |es|
  {
    && (IsAck(es[i]) ==> i > TABLES && es[i - TABLES - 1].Pull? && forall k :: i - TABLES <= k < i ==> Publishes(es[k], w))
    && (IsEmptyAck(es[i]) ==> i > 0 && es[i - 1].Pull?)
  }

  lemma {:induction false} DeliveryAcksFollow(w: nat, d: Delivery, i: nat)
    requires i < |DeliverySteps(w, d)|
    ensures FollowsItsWork(w, DeliverySteps(w, d), i)
  {
    hide ExtractedBy;
  }

  lemma {:induction false} FollowsInPrefix(w: nat, a: seq<Protocol.Event>, b: seq<Protocol.Event>, i: nat)
    requires i < |a| && FollowsItsWork(w, a, i)
    ensures FollowsItsWork(w, a + b, i)
  {
    assert forall k :: 0 <= k < |a| ==> (a + b)[k] == a[k];
  }

  lemma {:induction false} FollowsInSuffix(w: nat, a: seq<Protocol.Event>, b: seq<Protocol.Event>, i: nat)
    requires i < |b| && FollowsItsWork(w, b, i)
    ensures FollowsItsWork(w, a + b, |a| + i)
  {
    assert forall k :: 0 <= k < |b| ==> (a + b)[|a| + k] == b[k];
    if IsAck(b[i]) {
      forall k | |a| + i - TABLES <= k < |a| + i ensures Publishes((a + b)[k], w) {
        assert (a + b)[k] == b[k - |a|];
      }
    }
  }

  /** In the whole loop every acknowledgement follows its work. */
  lemma {:induction false} AcksFollowPublishes(w: nat, ds: seq<Delivery>, i: nat)
    requires i < |WorkerSteps(w, ds)|
    ensures FollowsItsWork(w, WorkerSteps(w, ds), i)
    decreases |ds|
  {
    hide DeliverySteps, Fails, FollowsItsWork;
    var first := DeliverySteps(w, ds[0]);
    var rest := if Fails(ds[0]) then [] else WorkerSteps(w, ds[1..]);
    if i < |first| {
      DeliveryAcksFollow(w, ds[0], i);
      FollowsInPrefix(w, first, rest, i);
    } else {
      AcksFollowPublishes(w, ds[1..], i - |first|);
      FollowsInSuffix(w, first, rest, i - |first|);
    }
  }

  /** Some delivery, before any that fails, runs dry. */
  predicate SomeRunsDry(ds: seq<Delivery>) {
    ds != [] && (RunsDry(ds[0]) || (!Fails(ds[0]) && SomeRunsDry(ds[1..])))
  }

  predicate HasEmptyAck(es: seq<Protocol.Event>) {
    exists i :: 0 <= i < |es| && IsEmptyAck(es[i])
  }

  lemma {:induction false} HasEmptyAckAppend(a: seq<Protocol.Event>, b: seq<Protocol.Event>)
    ensures HasEmptyAck(a + b) <==> HasEmptyAck(a) || HasEmptyAck(b)
  {
    if i :| 0 <= i < |a| && IsEmptyAck(a[i]) {
      assert IsEmptyAck((a + b)[i]);
    }
    if i :| 0 <= i < |b| && IsEmptyAck(b[i]) {
      assert IsEmptyAck((a + b)[|a| + i]);
    }
    if i :| 0 <= i < |a + b| && IsEmptyAck((a + b)[i]) {
      assert i < |a| ==> IsEmptyAck(a[i]);
      assert i >= |a| ==> IsEmptyAck(b[i - |a|]);
    }
  }

  lemma {:induction false} DeliveryEmptyAck(w: nat, d: Delivery)
    ensures HasEmptyAck(DeliverySteps(w, d)) <==> RunsDry(d)
  {
    hide ExtractedBy;
    if RunsDry(d) {
      assert IsEmptyAck(DeliverySteps(w, d)[1]);
    }
  }

  /** The loop acknowledges a message with nothing published exactly when some stream it reads runs dry or stops empty. */
  lemma {:induction false} EmptyAcksExactly(w: nat, ds: seq<Delivery>)
    ensures HasEmptyAck(WorkerSteps(w, ds)) <==> SomeRunsDry(ds)
  {
    hide DeliverySteps, Fails, RunsDry, IsEmptyAck;
    if ds != [] {
      EmptyAcksExactly(w, ds[1..]);
      DeliveryEmptyAck(w, ds[0]);
      HasEmptyAckAppend(DeliverySteps(w, ds[0]), if Fails(ds[0]) then [] else WorkerSteps(w, ds[1..]));
    }
  }

  // The loop's steps are steps of the protocol

  lemma {:induction false} RunAppend(chain: Chain, s: World, a: seq<Protocol.Event>, b: seq<Protocol.Event>)
    requires Run(chain, s, a).Some?
    ensures Run(chain, s, a + b) == Run(chain, Run(chain, s, a).value, b)
  {
    hide Step;
    if b == [] {
      assert a + b == a;
    } else {
      var n := |b| - 1;
      RunAppend(chain, s, a, b[..n]);
      assert (a + b)[..|a + b| - 1] == a + b[..n];
      assert (a + b)[|a + b| - 1] == b[n];
    }
  }

  lemma {:induction false} RunOne(chain: Chain, s: World, e: Protocol.Event)
    ensures Run(chain, s, [e]) == Step(chain, s, e)
  {
    hide Step;
    assert [e][..0] == [];
  }

  // What is published

  /** The rows of a list of publications that go to a table. */
  function PublishedTo(ps: seq<Publication>, t: Table): multiset<Row> {
    if ps == [] then multiset{}
    else PublishedTo(ps[..|ps| - 1], t) + (if ps[|ps| - 1].table == t then multiset(ps[|ps| - 1].rows) else multiset{})
  }

  lemma {:induction false} PublishedToAppend(a: seq<Publication>, b: seq<Publication>, t: Table)
    ensures PublishedTo(a + b, t) == PublishedTo(a, t) + PublishedTo(b, t)
  {
    if b == [] {
      assert a + b == a;
    } else {
      var n := |b| - 1;
      var more := if b[n].table == t then multiset(b[n].rows) else multiset{};
      PublishedToAppend(a, b[..n], t);
      assert (a + b)[..|a + b| - 1] == a + b[..n];
      Sum(PublishedTo(a, t), PublishedTo(b[..n], t), more);
    }
  }

  lemma {:induction false} Sum(a: multiset<Row>, b: multiset<Row>, c: multiset<Row>)
    ensures (a + b) + c == a + (b + c)
  {
  }

  lemma {:induction false} OrderDistinct(i: nat, j: nat)
    requires i < j < TABLES
    ensures PublishOrder[i] != PublishOrder[j]
  {
  }

  lemma {:induction false} NewInOrder(n: nat, t: Table)
    requires n < TABLES
    ensures t in PublishOrder[..n + 1] <==> t in PublishOrder[..n] || t == PublishOrder[n]
    ensures t == PublishOrder[n] ==> t !in PublishOrder[..n]
  {
    assert PublishOrder[..n + 1] == PublishOrder[..n] + [PublishOrder[n]];
    if t in PublishOrder[..n] {
      var i :| 0 <= i < n && PublishOrder[i] == t;
      OrderDistinct(i, n);
    }
  }

  lemma {:induction false} AllInOrder(t: Table)
    ensures t in PublishOrder[..TABLES]
  {
    var k := ProtocolLaws.PublishOrderHasAll(t);
    assert PublishOrder[..TABLES] == PublishOrder;
  }

  lemma {:induction false} PublishedUpTo(o: TableOptions, name: string, r: Records, n: nat, t: Table)
    requires n <= TABLES
    ensures PublishedTo(PublishUpTo(o, name, r, n), t)
         == if t in PublishOrder[..n] && o.Does(t) then multiset(r.At(t)) else multiset{}
  {
    hide PublishedTo, PublishedIf;
    NothingPublished(t);
    if n > 0 {
      PublishedUpTo(o, name, r, n - 1, t);
      NewInOrder(n - 1, t);
      PublishedOne(o, name, r, PublishOrder[n - 1], t);
      PublishedToAppend(PublishUpTo(o, name, r, n - 1), PublishedIf(o, PublishOrder[n - 1], name, r), t);
    }
  }

  lemma {:induction false} PublishedOne(o: TableOptions, name: string, r: Records, u: Table, t: Table)
    ensures PublishedTo(PublishedIf(o, u, name, r), t) == if t == u && o.Does(t) then multiset(r.At(t)) else multiset{}
  {
    if o.Does(u) {
      var ps := PublishedIf(o, u, name, r);
      assert ps[..0] == [];
    }
  }

  /** When extraction yields rows, what is handed to the publisher for a table are the message's rows. */
  lemma {:induction false} PublishesMessageRows(chain: Chain, d: Delivery, t: Table)
    requires IsChain(chain) && d.Delivered? && d.stream.Success? && d.message.range.start <= d.message.range.end
    requires Follows(chain, d.stream.value, d.message.range.start) && ExtractedBy(d.message, d.stream).WithRows?
    ensures PublishedTo(DeliveryPublishes(d), t) == multiset(MessageRows(chain, d.message, t))
  {
    hide RunStream, Flat, AllConvert, StopsEmpty, Extractable, FirstStatus, PublishUpTo, PublishedTo, IsChain;
    var m, pulls := d.message, d.stream.value;
    ExtractedExactly(chain, m, pulls);
    FollowsInOrder(chain, pulls, m.range.start);
    WorkerBuffersHoldMessageRows(chain, m, pulls);
    var records := RunStream(m.Options(), m.range.end, pulls, m.range.start, Empty).records;
    PublishedUpTo(m.Options(), RangeName(m.range.start, m.range.end), records, TABLES, t);
    AllInOrder(t);
    assert records.At(t) == MessageRows(chain, m, t);
  }

  /** Otherwise no row is handed to it. */
  lemma {:induction false} PublishesNoRows(d: Delivery, t: Table)
    requires d.Delivered? && !ExtractedBy(d.message, d.stream).WithRows?
    ensures PublishedTo(DeliveryPublishes(d), t) == multiset{}
  {
    hide RunStream, PublishUpTo, PublishedTo, StopsEmpty;
    NothingPublished(t);
    if d.stream.Success? {
      var m, pulls := d.message, d.stream.value;
      if StopsEmpty(pulls, m.range.start, m.range.end) {
        SingleVersion(pulls, m.range.start, m.range.end);
        StopsEmptyReaches(m.Options(), m.range.end, pulls);
        PublishedUpTo(m.Options(), RangeName(m.range.start, m.range.end), Empty, TABLES, t);
        assert Empty.At(t) == [];
      }
    }
  }

  lemma {:induction false} NothingPublished(t: Table)
    ensures PublishedTo([], t) == multiset{}
  {
  }

  // What lands

  /** What of a message's rows lands in a table. */
  function LandedOf(chain: Chain, m: Message, landing: Landing, t: Table): multiset<Row> {
    if landing.Everything? then multiset(MessageRows(chain, m, t)) else landing.rows.At(t)
  }

  /** Nothing lands that is not published. */
  ghost predicate Fits(chain: Chain, m: Message, landing: Landing) {
    forall t: Table :: LandedOf(chain, m, landing, t) <= multiset(MessageRows(chain, m, t))
  }

  /** Of the first n tables every row lands. */
  ghost predicate AllLand(chain: Chain, m: Message, landing: Landing, n: nat)
    requires n <= TABLES
  {
    forall k :: 0 <= k < n ==> LandedOf(chain, m, landing, PublishOrder[k]) == multiset(MessageRows(chain, m, PublishOrder[k]))
  }

  /** What of a delivery's publishes lands in a table. */
  function DeliveryLands(d: Delivery, t: Table): multiset<Row> {
    if !d.Delivered? || !ExtractedBy(d.message, d.stream).WithRows? then multiset{}
    else if d.landing.Everything? then PublishedTo(DeliveryPublishes(d), t)
    else d.landing.rows.At(t)
  }

  /** What the loop adds to a table. */
  function WorkerLands(ds: seq<Delivery>, t: Table): multiset<Row> {
    if ds == [] then multiset{} else DeliveryLands(ds[0], t) + (if Fails(ds[0]) then multiset{} else WorkerLands(ds[1..], t))
  }

  /** Everything that any of the publishes hands over lands. */
  predicate Lossless(ds: seq<Delivery>) {
    forall i :: 0 <= i < |ds| && ds[i].Delivered? ==> ds[i].landing.Everything?
  }

  /** When nothing is lost, the loop adds to each table exactly the rows it hands to the publisher. */
  lemma {:induction false} LosslessLands(ds: seq<Delivery>, t: Table)
    requires Lossless(ds)
    ensures WorkerLands(ds, t) == PublishedTo(WorkerPublishes(ds), t)
    decreases |ds|
  {
    hide ExtractedBy, PublishedTo, DeliveryPublishes, Fails;
    NothingPublished(t);
    if ds != [] {
      var rest := if Fails(ds[0]) then [] else WorkerPublishes(ds[1..]);
      LosslessLands(ds[1..], t);
      PublishedToAppend(DeliveryPublishes(ds[0]), rest, t);
      if ds[0].Delivered? {
        if !ExtractedBy(ds[0].message, ds[0].stream).WithRows? {
          PublishesNoRows(ds[0], t);
        }
      } else {
        assert DeliveryPublishes(ds[0]) == [] by {
          UndeliveredPublishes(ds[0]);
        }
      }
    }
  }

  lemma {:induction false} UndeliveredPublishes(d: Delivery)
    requires !d.Delivered?
    ensures DeliveryPublishes(d) == []
  {
  }

  // The loop's steps change the tables by what it publishes

  lemma {:induction false} LandStep(chain: Chain, s: World, w: nat, id: nat, landing: Landing, n: nat, before: bool)
    requires w in s.jobs && s.jobs[w] == Job(id, n, before) && id < |s.sent| == |s.status| && n < TABLES
    requires Extractable(chain, s.sent[id]) && Fits(chain, s.sent[id], landing)
    ensures
      var t := PublishOrder[n];
      var rows := LandedOf(chain, s.sent[id], landing, t);
      Step(chain, s, PublishStep(w, t, landing))
        == Some(Land(s, w, rows, rows == multiset(MessageRows(chain, s.sent[id], t))))
  {
    hide Extractable, MessageRows, AddRows;
    assert LandedOf(chain, s.sent[id], landing, PublishOrder[n]) <= multiset(MessageRows(chain, s.sent[id], PublishOrder[n]));
  }

  function LandedUpTo(chain: Chain, m: Message, landing: Landing, n: nat, t: Table): multiset<Row>
    requires n <= TABLES
  {
    if t in PublishOrder[..n] then LandedOf(chain, m, landing, t) else multiset{}
  }

  lemma {:induction false} OneMoreLanded(chain: Chain, m: Message, landing: Landing, n: nat, t: Table)
    requires 0 < n <= TABLES
    ensures LandedUpTo(chain, m, landing, n, t) == LandedUpTo(chain, m, landing, n - 1, t)
      + if t == PublishOrder[n - 1] then LandedOf(chain, m, landing, t) else multiset{}
  {
    hide LandedOf;
    NewInOrder(n - 1, t);
  }

  /** The world after the first n tables of a job are published. */
  ghost predicate PublishedTables(chain: Chain, s: World, s': World, w: nat, id: nat, landing: Landing, n: nat)
    requires id < |s.sent| && n <= TABLES
  {
    && s'.sent == s.sent && s'.status == s.status
    && s'.jobs == s.jobs[w := Job(id, n, AllLand(chain, s.sent[id], landing, n))]
    && forall t: Table :: s'.tables.At(t) == s.tables.At(t) + LandedUpTo(chain, s.sent[id], landing, n, t)
  }

  lemma {:induction false} PublishStepsRun(chain: Chain, s: World, w: nat, id: nat, landing: Landing, n: nat)
    requires w in s.jobs && s.jobs[w] == Job(id, 0, true) && id < |s.sent| == |s.status| && n <= TABLES
    requires Extractable(chain, s.sent[id]) && Fits(chain, s.sent[id], landing)
    ensures Run(chain, s, PublishSteps(w, landing, n)).Some?
    ensures PublishedTables(chain, s, Run(chain, s, PublishSteps(w, landing, n)).value, w, id, landing, n)
  {
    hide Extractable, MessageRows, AddRows, LandedOf, Step, Fits;
    if n == 0 {
      assert s.jobs[w := Job(id, 0, true)] == s.jobs;
    } else {
      PublishStepsRun(chain, s, w, id, landing, n - 1);
      assert PublishSteps(w, landing, n)[..n - 1] == PublishSteps(w, landing, n - 1);
      OneMoreTable(chain, s, Run(chain, s, PublishSteps(w, landing, n - 1)).value, w, id, landing, n);
    }
  }

  lemma {:induction false} OneMoreTable(chain: Chain, s: World, before: World, w: nat, id: nat, landing: Landing, n: nat)
    requires id < |s.sent| == |s.status| && 0 < n <= TABLES && PublishedTables(chain, s, before, w, id, landing, n - 1)
    requires Extractable(chain, s.sent[id]) && Fits(chain, s.sent[id], landing)
    ensures Step(chain, before, PublishStep(w, PublishOrder[n - 1], landing)).Some?
    ensures
      PublishedTables(chain, s, Step(chain, before, PublishStep(w, PublishOrder[n - 1], landing)).value, w, id, landing, n)
  {
    hide Extractable, MessageRows, AddRows, LandedOf, Step, Fits, LandedUpTo, AllLand;
    var m, u := s.sent[id], PublishOrder[n - 1];
    var rows := LandedOf(chain, m, landing, u);
    LandStep(chain, before, w, id, landing, n - 1, AllLand(chain, m, landing, n - 1));
    var after := Land(before, w, rows, rows == multiset(MessageRows(chain, m, u)));
    OneMoreLands(chain, m, landing, n);
    assert after.jobs == s.jobs[w := Job(id, n, AllLand(chain, m, landing, n))];
    forall t: Table ensures after.tables.At(t) == s.tables.At(t) + LandedUpTo(chain, m, landing, n, t) {
      OneMoreLanded(chain, m, landing, n, t);
      AddRowsAt(before.tables, u, rows, t);
    }
  }

  lemma {:induction false} OneMoreLands(chain: Chain, m: Message, landing: Landing, n: nat)
    requires 0 < n <= TABLES
    ensures AllLand(chain, m, landing, n) <==>
      AllLand(chain, m, landing, n - 1)
      && LandedOf(chain, m, landing, PublishOrder[n - 1]) == multiset(MessageRows(chain, m, PublishOrder[n - 1]))
  {
    hide MessageRows, LandedOf;
  }

  lemma {:induction false} AddRowsAt(tables: ByTable<multiset<Row>>, u: Table, rows: multiset<Row>, t: Table)
    ensures AddRows(tables, u, rows).At(t) == if t == u then tables.At(t) + rows else tables.At(t)
  {
  }

  /** An idle worker can take any deliverable message that can be extracted through to its acknowledgement; each table
      gains what lands of its publish. */
  lemma {:induction false} JobRuns(chain: Chain, s: World, w: nat, id: nat, landing: Landing, replied: bool)
    requires |s.status| == |s.sent| && id < |s.sent| && w !in s.jobs && s.status[id].Deliverable?
    requires Extractable(chain, s.sent[id]) && Fits(chain, s.sent[id], landing)
    ensures Run(chain, s, JobSteps(w, id, landing, replied)).Some?
    ensures
      var s' := Run(chain, s, JobSteps(w, id, landing, replied)).value;
      && s'.sent == s.sent && s'.jobs == s.jobs
      && s'.status == s.status[id := if replied then Acked else Outstanding]
      && forall t: Table :: s'.tables.At(t) == s.tables.At(t) + LandedOf(chain, s.sent[id], landing, t)
  {
    hide Extractable, Run, PublishSteps, CanPublish, CanLand, AddRows, LandedOf, Fits, AllLand;
    var last := if replied then Ack(w) else AckLost(w);
    RunOne(chain, s, Pull(w, id));
    var s1 := Step(chain, s, Pull(w, id)).value;
    PublishStepsRun(chain, s1, w, id, landing, TABLES);
    RunAppend(chain, s, [Pull(w, id)], PublishSteps(w, landing, TABLES));
    var s2 := Run(chain, s1, PublishSteps(w, landing, TABLES)).value;
    RunOne(chain, s2, last);
    RunAppend(chain, s, [Pull(w, id)] + PublishSteps(w, landing, TABLES), [last]);
    assert s2.jobs - {w} == s.jobs;
    assert s2.status[id := Acked] == s.status[id := Acked];
    forall t: Table { AllInOrder(t); }
  }

  /** What the answers leave a message's status at: acknowledged when it was answered without an error, deliverable again
      after a nack, and still outstanding when the answer was lost. */
  function AnsweredStatus(d: Delivery): Status {
    if !d.Delivered? || !d.replied then Outstanding else if Fails(d) then Deliverable else Acked
  }

  /** A message's status after the loop. */
  function WorkerStatus(ds: seq<Delivery>, id: nat, status: Status): Status {
    if ds == [] then status
    else
      var answered := if ds[0].Delivered? && ds[0].id == id then AnsweredStatus(ds[0]) else status;
      if Fails(ds[0]) then answered else WorkerStatus(ds[1..], id, answered)
  }

  /** A message that publishes nothing is pulled and answered. */
  lemma {:induction false} ReplyRuns(chain: Chain, s: World, w: nat, id: nat, reply: Protocol.Event)
    requires |s.status| == |s.sent| && id < |s.sent| && w !in s.jobs && s.status[id].Deliverable?
    requires reply in {Nack(w), NackLost(w), AckEmpty(w), AckEmptyLost(w)}
    ensures Run(chain, s, [Pull(w, id), reply]).Some?
    ensures
      var s' := Run(chain, s, [Pull(w, id), reply]).value;
      && s'.sent == s.sent && s'.jobs == s.jobs && s'.tables == s.tables
      && s'.status == s.status[id := if reply.Nack? then Deliverable else if reply.AckEmpty? then Acked else Outstanding]
  {
    hide Run, Step;
    RunOne(chain, s, Pull(w, id));
    PullStep(chain, s, w, id);
    var s1 := Step(chain, s, Pull(w, id)).value;
    RunOne(chain, s1, reply);
    ReplyStep(chain, s1, w, reply);
    RunAppend(chain, s, [Pull(w, id)], [reply]);
    assert [Pull(w, id)] + [reply] == [Pull(w, id), reply];
    assert s1.jobs - {w} == s.jobs;
    assert s1.status[id := Deliverable] == s.status[id := Deliverable] && s1.status[id := Acked] == s.status[id := Acked];
  }

  lemma {:induction false} PullStep(chain: Chain, s: World, w: nat, id: nat)
    requires id < |s.status| && w !in s.jobs && s.status[id].Deliverable?
    ensures Step(chain, s, Pull(w, id)) == Some(s.(status := s.status[id := Outstanding], jobs := s.jobs[w := Job(id, 0, true)]))
  {
  }

  lemma {:induction false} ReplyStep(chain: Chain, s: World, w: nat, reply: Protocol.Event)
    requires Busy(s, w) && s.jobs[w].stage == 0 && s.status[s.jobs[w].message].Outstanding?
    requires reply in {Nack(w), NackLost(w), AckEmpty(w), AckEmptyLost(w)}
    ensures
      var id := s.jobs[w].message;
      Step(chain, s, reply) == Some(EndJob(s, w,
        if reply.Nack? then s.status[id := Deliverable] else if reply.AckEmpty? then s.status[id := Acked] else s.status))
  {
    hide CanPublish, CanLand, Merged;
  }

  /** The deliveries' messages are waiting, each delivered once, and their streams follow the chain. */
  ghost predicate Ready(chain: Chain, s: World, ds: seq<Delivery>) {
    && |s.status| == |s.sent|
    && (forall i :: 0 <= i < |ds| && ds[i].Delivered? ==> Waits(chain, s, ds[i]))
    && (forall i, j :: 0 <= i < j < |ds| && ds[i].Delivered? && ds[j].Delivered? ==> ds[i].id != ds[j].id)
  }

  ghost predicate Waits(chain: Chain, s: World, d: Delivery)
    requires d.Delivered? && |s.status| == |s.sent|
  {
    && d.id < |s.sent| && s.status[d.id].Deliverable? && s.sent[d.id] == d.message
    && d.message.range.start <= d.message.range.end
    && Fits(chain, d.message, d.landing)
    && (d.stream.Success? ==> Follows(chain, d.stream.value, d.message.range.start))
  }

  lemma {:induction false} ReadyTail(chain: Chain, s: World, s': World, ds: seq<Delivery>)
    requires ds != [] && Ready(chain, s, ds) && s'.sent == s.sent && |s'.status| == |s.status|
    requires forall k :: 0 <= k < |s.status| && !(ds[0].Delivered? && ds[0].id == k) ==> s'.status[k] == s.status[k]
    ensures Ready(chain, s', ds[1..])
  {
    hide Follows, Fits;
    forall i | 0 <= i < |ds[1..]| && ds[1..][i].Delivered? ensures Waits(chain, s', ds[1..][i]) {
      assert Waits(chain, s, ds[i + 1]);
    }
  }

  /** What the world looks like after one delivery. */
  ghost predicate Handled(chain: Chain, s: World, s': World, d: Delivery)
    requires |s.status| == |s.sent|
  {
    && s'.sent == s.sent && s'.jobs == s.jobs && |s'.status| == |s.status|
    && (forall t: Table :: s'.tables.At(t) == s.tables.At(t) + DeliveryLands(d, t))
    && (forall k :: 0 <= k < |s.status| ==>
          s'.status[k] == if d.Delivered? && d.id == k then AnsweredStatus(d) else s.status[k])
  }

  lemma {:induction false} DeliveryRuns(chain: Chain, s: World, w: nat, d: Delivery)
    requires IsChain(chain) && w !in s.jobs && |s.status| == |s.sent| && (d.Delivered? ==> Waits(chain, s, d))
    ensures Run(chain, s, DeliverySteps(w, d)).Some?
    ensures Handled(chain, s, Run(chain, s, DeliverySteps(w, d)).value, d)
  {
    hide Extractable, Run, JobSteps, Follows, Flat, StopsEmpty, ExtractedBy, AllConvert, FirstStatus, Fits, PublishedTo,
         DeliveryPublishes;
    if !d.Delivered? {
      NoSteps(chain, s);
    } else {
      match ExtractedBy(d.message, d.stream)
      case WithRows =>
        NoStreamNoRows(d.message, d.stream);
        ExtractedExactly(chain, d.message, d.stream.value);
        JobRuns(chain, s, w, d.id, d.landing, d.replied);
        forall t: Table ensures DeliveryLands(d, t) == LandedOf(chain, d.message, d.landing, t) {
          PublishesMessageRows(chain, d, t);
        }
      case WithoutRows => ReplyRuns(chain, s, w, d.id, if d.replied then AckEmpty(w) else AckEmptyLost(w));
      case InError => ReplyRuns(chain, s, w, d.id, if d.replied then Nack(w) else NackLost(w));
    }
  }

  lemma {:induction false} NoStreamNoRows(m: Message, stream: Stream)
    requires !ExtractedBy(m, stream).InError?
    ensures stream.Success? && stream == Success(stream.value)
  {
    hide RunStream;
  }

  /** Main result: a worker's whole loop, short acknowledgements included, is a run of the protocol that leaves the worker
      idle, adds to every table what lands of what the loop hands to the publisher, and leaves every message answered as
      its extraction ended. */
  lemma {:induction false} WorkerRuns(chain: Chain, s: World, w: nat, ds: seq<Delivery>)
    requires IsChain(chain) && w !in s.jobs && Ready(chain, s, ds)
    ensures Run(chain, s, WorkerSteps(w, ds)).Some?
    ensures
      var s' := Run(chain, s, WorkerSteps(w, ds)).value;
      && s'.jobs == s.jobs && s'.sent == s.sent && |s'.status| == |s.status|
      && (forall t: Table :: s'.tables.At(t) == s.tables.At(t) + WorkerLands(ds, t))
      && (forall id :: 0 <= id < |s.status| ==> s'.status[id] == WorkerStatus(ds, id, s.status[id]))
    decreases |ds|
  {
    hide IsChain, Run, DeliverySteps, Fails, Waits, DeliveryLands, AnsweredStatus;
    if ds == [] {
      NoSteps(chain, s);
    } else {
      DeliveryRuns(chain, s, w, ds[0]);
      var s' := Run(chain, s, DeliverySteps(w, ds[0])).value;
      if Fails(ds[0]) {
        assert DeliverySteps(w, ds[0]) + [] == DeliverySteps(w, ds[0]);
      } else {
        ReadyTail(chain, s, s', ds);
        WorkerRuns(chain, s', w, ds[1..]);
        RunAppend(chain, s, DeliverySteps(w, ds[0]), WorkerSteps(w, ds[1..]));
      }
    }
  }

  lemma {:induction false} NoSteps(chain: Chain, s: World)
    ensures Run(chain, s, []) == Some(s)
  {
  }

  /** When nothing is lost on the way, the tables gain exactly what the loop hands to the publisher. */
  lemma {:induction false} WorkerPublishesWhatItAdds(chain: Chain, s: World, w: nat, ds: seq<Delivery>, t: Table)
    requires IsChain(chain) && w !in s.jobs && Ready(chain, s, ds) && Lossless(ds)
    ensures Run(chain, s, WorkerSteps(w, ds)).Some?
    ensures Run(chain, s, WorkerSteps(w, ds)).value.tables.At(t) == s.tables.At(t) + PublishedTo(WorkerPublishes(ds), t)
  {
    hide IsChain, Run, Ready, WorkerLands, PublishedTo;
    WorkerRuns(chain, s, w, ds);
    LosslessLands(ds, t);
  }

  // What a lossy publish costs

  /** The first message, acknowledged although only these rows landed: where its rows' keys are distinct, a table holds
      the message if and only if none of its rows was lost. */
  lemma {:induction false} LossyAckLosesExactly(chain: Chain, m: Message, landed: ByTable<multiset<Row>>, t: Table)
    requires Extractable(chain, m) && Fits(chain, m, Only(landed)) && KeysDistinct(MessageRows(chain, m, t))
    ensures
      var es := [Send(m)] + JobSteps(0, 0, Only(landed), true);
      && Run(chain, Start, es).Some? && Run(chain, Start, es).value.status == [Acked]
      && (HoldsMessage(chain, Run(chain, Start, es).value.tables.At(t), m, t) <==>
            landed.At(t) == multiset(MessageRows(chain, m, t)))
  {
    hide Extractable, MessageRows, Step, Run, Fits, JobSteps, KeysDistinct, HoldsMessage;
    RunOne(chain, Start, Send(m));
    SendSteps(chain, Start, m);
    var s := Step(chain, Start, Send(m)).value;
    JobRuns(chain, s, 0, 0, Only(landed), true);
    RunAppend(chain, Start, [Send(m)], JobSteps(0, 0, Only(landed), true));
    var s' := Run(chain, s, JobSteps(0, 0, Only(landed), true)).value;
    NoTableHasRows(t);
    assert s'.tables.At(t) == landed.At(t);
    FitsAt(chain, m, landed, t);
    HoldsOnlyAll(chain, m, landed.At(t), t);
  }

  lemma {:induction false} NoTableHasRows(t: Table)
    ensures Start.tables.At(t) == multiset{}
  {
  }

  lemma {:induction false} FitsAt(chain: Chain, m: Message, landed: ByTable<multiset<Row>>, t: Table)
    requires Fits(chain, m, Only(landed))
    ensures landed.At(t) <= multiset(MessageRows(chain, m, t))
  {
    hide MessageRows;
    assert LandedOf(chain, m, Only(landed), t) == landed.At(t);
  }

  lemma {:induction false} HoldsOnlyAll(chain: Chain, m: Message, table: multiset<Row>, t: Table)
    requires Extractable(chain, m) && KeysDistinct(MessageRows(chain, m, t)) && table <= multiset(MessageRows(chain, m, t))
    ensures HoldsMessage(chain, table, m, t) <==> table == multiset(MessageRows(chain, m, t))
  {
    hide Extractable, MessageRows, KeyOf;
    var rows := MessageRows(chain, m, t);
    if HoldsMessage(chain, table, m, t) {
      forall row ensures table[row] == multiset(rows)[row] {
        DistinctOnce(rows, row);
        if row in rows {
          assert HasKeyIn(table, KeyOf(row));
          var r :| r in table && KeyOf(r) == KeyOf(row);
          assert r in multiset(rows);
          ProtocolLaws.SameListed(rows, r, row);
        }
      }
    } else {
      var row :| row in rows && !HasKeyIn(table, KeyOf(row));
      assert row in multiset(rows);
    }
  }

  // Runs exist

  /** A ledger of state checkpoints. */
  function Checkpoint(v: nat): Transaction {
    Transaction(v, 0, Some(UnixTimestamp(0, 0)), StateCheckpoint, Some(StateCheckpointData), Some(TxInfo(true, [], Success(""))))
  }

  lemma {:induction false} CheckpointExtracts(v: nat)
    ensures ExtractRecords(Checkpoint(v)).Success?
  {
    var x := Extract(Checkpoint(v)).value;
    assert x.changes == [];
  }

  lemma {:induction false} CheckpointConverts(v: nat, o: TableOptions)
    ensures Convert(o, Checkpoint(v)).Success?
  {
    hide Convert, Extract, ExtractRecords, RowsFor;
    CheckpointExtracts(v);
    ExtractRecordsExactly(Checkpoint(v));
    EveryTableNeedsExtraction(Checkpoint(v));
    assert RowsFor(TransactionsTable, Checkpoint(v)).Success?;
    ConvertExactly(o, Checkpoint(v));
  }

  /** For any messages there are a ledger and a run that acknowledges them all, none short: the promises about such runs
      say something. */
  lemma {:induction false} QuiescentRunExists(messages: seq<Message>) returns (es: seq<Protocol.Event>)
    ensures IsChain(Checkpoint) && Run(Checkpoint, Start, es).Some?
    ensures forall i :: 0 <= i < |es| ==> !MayLose(es[i])
    ensures
      var s := Run(Checkpoint, Start, es).value;
      s.sent == messages && s.jobs == map[] && |s.status| == |s.sent| && forall k :: 0 <= k < |s.status| ==> s.status[k].Acked?
  {
    hide Step, Run, Extractable, Extract, LandedOf;
    if messages == [] {
      es := [];
      NoSteps(Checkpoint, Start);
    } else {
      var n := |messages| - 1;
      var m := messages[n];
      var before := QuiescentRunExists(messages[..n]);
      var s := Run(Checkpoint, Start, before).value;
      RunOne(Checkpoint, s, Send(m));
      SendSteps(Checkpoint, s, m);
      var s' := Step(Checkpoint, s, Send(m)).value;
      AllCheckpointsExtract(m);
      EverythingFits(Checkpoint, m);
      JobRuns(Checkpoint, s', 0, n, Everything, true);
      RunAppend(Checkpoint, Start, before, [Send(m)]);
      RunAppend(Checkpoint, Start, before + [Send(m)], JobSteps(0, n, Everything, true));
      es := before + [Send(m)] + JobSteps(0, n, Everything, true);
    }
  }

  lemma {:induction false} EverythingFits(chain: Chain, m: Message)
    ensures Fits(chain, m, Everything)
  {
  }

  lemma {:induction false} SendSteps(chain: Chain, s: World, m: Message)
    ensures Step(chain, s, Send(m)) == Some(s.(sent := s.sent + [m], status := s.status + [Deliverable]))
  {
  }

  lemma {:induction false} AllCheckpointsExtract(m: Message)
    ensures Extractable(Checkpoint, m)
  {
    hide Convert, Segment;
    var txs := Segment(Checkpoint, m.range.start, m.range.end);
    forall i | 0 <= i < |txs| ensures Convert(m.Options(), txs[i]).Success? {
      SegmentAt(Checkpoint, m.range.start, m.range.end, i);
      CheckpointConverts(m.range.start + i, m.Options());
    }
  }
}
