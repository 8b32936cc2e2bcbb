/** Stops, crashes and resumptions of the coordinator (indexing_coordinator/publish_ranges.py). */
module Resumption {
  import opened Wrappers
  import opened Coordinator

  /** The coordinator's process and the two topics it publishes to, over any number of restarts. */
  datatype System = System(
    running: bool,
    last: int,                    // last_indexed_end
    serialized: Option<Range>,    // indexing_range_serialized
    unpublished: bool,            // serialised a range that is not yet published
    pending: seq<Range>,          // ranges of the current poll that are not yet published
    target: nat,                  // the current poll's ledger version
    published: seq<Range>,        // the ranges topic, all of it
    saved: seq<Range>,            // messages of the resumption topic
    resumedAt: int,               // where the running process started from
    resumedWith: nat)             // how many ranges were published by then

  datatype Event =
    | Start(pulled: Option<nat>)  // pick_up_from_previous_run: a message of the resumption topic, or none
    | Poll(version: nat)
    | Serialize
    | Publish
    | Signal
    | Crash

  const Init := System(false, -1, None, false, [], 0, [], [], -1, 0)

  /** One step, when it is enabled. */
  function Step(s: System, e: Event): Option<System> {
    match e
    case Start(None) =>
      if s.running then None else Some(Started(s, -1, s.saved))
    case Start(Some(i)) =>
      if s.running || i >= |s.saved| then None
      else Some(Started(s, s.saved[i].end, s.saved[..i] + s.saved[i + 1..]))
    case Poll(version) =>
      if !s.running || s.pending != [] || s.last < -1 then None
      else
        var pending := Chunks(s.last + 1, version);
        Some(s.(pending := pending, target := version, last := if pending == [] then version else s.last))
    case Serialize =>
      if !s.running || s.pending == [] || s.unpublished then None
      else Some(s.(serialized := Some(s.pending[0]), unpublished := true))
    case Publish =>
      if !s.running || s.pending == [] || !s.unpublished then None
      else Some(s.(published := s.published + [s.pending[0]], pending := s.pending[1..], unpublished := false,
                   last := if |s.pending| == 1 then s.target else s.last))
    case Signal =>
      if !s.running then None
      else Some(Halted(s.(saved := if s.serialized.Some? then s.saved + [s.serialized.value] else s.saved)))
    case Crash =>
      if !s.running then None else Some(Halted(s))
  }

  function Started(s: System, last: int, saved: seq<Range>): System {
    s.(running := true, last := last, serialized := None, unpublished := false, pending := [], saved := saved,
       resumedAt := last, resumedWith := |s.published|)
  }

  function Halted(s: System): System {
    s.(running := false, serialized := None, unpublished := false, pending := [])
  }

  function Run(s: System, es: seq<Event>): Option<System> {
    if es == [] then Some(s)
    else
      match Run(s, es[..|es| - 1])
      case None => None
      case Some(before) => Step(before, es[|es| - 1])
  }

  /** A running process can be stopped or crash at any moment, and one that is not can be started from any saved message; the
      published ranges stay, and only a signal saves one, the range serialised last. */
  lemma {:induction false} StopsAndStarts(s: System, i: nat)
    ensures Step(s, Signal).Some? <==> s.running
    ensures Step(s, Crash).Some? <==> s.running
    ensures Step(s, Start(None)).Some? <==> !s.running
    ensures Step(s, Start(Some(i))).Some? <==> !s.running && i < |s.saved|
    ensures s.running ==>
      && !Step(s, Signal).value.running && Step(s, Signal).value.published == s.published
      && Step(s, Signal).value.saved == s.saved + (if s.serialized.Some? then [s.serialized.value] else [])
      && !Step(s, Crash).value.running && Step(s, Crash).value.published == s.published && Step(s, Crash).value.saved == s.saved
    ensures !s.running ==>
      && Step(s, Start(None)).value.running && Step(s, Start(None)).value.last == -1 && Step(s, Start(None)).value.saved == s.saved
    ensures !s.running && i < |s.saved| ==>
      && Step(s, Start(Some(i))).value.last == s.saved[i].end && |Step(s, Start(Some(i))).value.saved| == |s.saved| - 1
      && multiset(Step(s, Start(Some(i))).value.saved) == multiset(s.saved) - multiset{s.saved[i]}
  {
    if !s.running && i < |s.saved| {
      assert s.saved == s.saved[..i] + [s.saved[i]] + s.saved[i + 1..];
    }
  }

  /** The versions that some poll passed over by advancing exactly to them from the version before. */
  function PassedOver(s: System, es: seq<Event>): set<int> {
    if es == [] then {}
    else
      PassedOver(s, es[..|es| - 1]) +
      match Run(s, es[..|es| - 1])
      case None => {}
      case Some(before) => PassedBy(before, es[|es| - 1])
  }

  function PassedBy(s: System, e: Event): set<int> {
    if e.Poll? && e.version == s.last + 1 then {e.version} else {}
  }

  /** The versions of ranges that some signal saved after they were serialised and before they were published. */
  function SavedInGap(s: System, es: seq<Event>): set<int> {
    if es == [] then {}
    else
      SavedInGap(s, es[..|es| - 1]) +
      match Run(s, es[..|es| - 1])
      case None => {}
      case Some(before) => GapOf(before, es[|es| - 1])
  }

  function GapOf(s: System, e: Event): set<int> {
    if e.Signal? && s.unpublished && s.serialized.Some?
    then Versions(s.serialized.value.start, s.serialized.value.end)
    else {}
  }

  function Versions(lo: nat, hi: nat): (r: set<int>)
    ensures forall x :: x in r <==> lo <= x <= hi
    decreases hi
  {
    if hi < lo then {} else if hi == 0 then {0} else Versions(lo, hi - 1) + {hi as int}
  }

  predicate Accounted(rs: seq<Range>, passed: set<int>, x: int) {
    Covered(rs, x) || x in passed
  }

  /** Every version from 0 up to n is covered or was passed over. */
  ghost predicate AccountedTo(rs: seq<Range>, passed: set<int>, n: int) {
    forall x :: 0 <= x <= n ==> Accounted(rs, passed, x)
  }

  /** What is left of a poll, and the version up to which everything before it is accounted for. */
  predicate PendingFrom(s: System, from: int) {
    && s.pending != [] && from == s.pending[0].start
    && s.pending == Chunks(s.pending[0].start, s.target)
  }

  ghost predicate Inv(s: System, passed: set<int>) {
    && s.last >= -1
    && AccountedTo(s.published, passed, s.last)
    && (forall i :: 0 <= i < |s.saved| ==> AccountedTo(s.published, passed, s.saved[i].end))
    && (s.unpublished ==> s.running && s.pending != [] && s.serialized == Some(s.pending[0]))
    && (s.pending != [] ==> PendingFrom(s, s.pending[0].start) && AccountedTo(s.published, passed, s.pending[0].start - 1))
    && (s.serialized.Some? && !s.unpublished ==> AccountedTo(s.published, passed, s.serialized.value.end))
    && s.resumedWith <= |s.published| && s.resumedAt >= -1
  }

  lemma {:induction false} CoveredStays(rs: seq<Range>, r: Range, x: int)
    ensures Covered(rs, x) ==> Covered(rs + [r], x)
    ensures Covers(r, x) ==> Covered(rs + [r], x)
  {
    if Covered(rs, x) {
      var i :| 0 <= i < |rs| && Covers(rs[i], x);
      assert Covers((rs + [r])[i], x);
    }
    assert (rs + [r])[|rs|] == r;
  }

  lemma {:induction false} ChunksUnfold(start: nat, end: nat)
    requires Chunks(start, end) != []
    ensures start < end && Chunks(start, end)[0] == Range(start, Min(start + STEP, end))
    ensures Chunks(start, end)[1..] == Chunks(Min(start + STEP, end), end)
    ensures |Chunks(start, end)| == 1 <==> Min(start + STEP, end) == end
  {
  }

  lemma {:induction false} AccountedGrows(rs: seq<Range>, r: Range, passed: set<int>, n: int)
    requires AccountedTo(rs, passed, n)
    ensures AccountedTo(rs + [r], passed, n)
    ensures r.start <= n + 1 ==> AccountedTo(rs + [r], passed, r.end)
  {
    hide Covered;
    forall x | 0 <= x && (x <= n || (r.start <= n + 1 && x <= r.end)) ensures Accounted(rs + [r], passed, x) {
      CoveredStays(rs, r, x);
      assert x <= n ==> Accounted(rs, passed, x);
    }
  }

  lemma {:induction false} MorePassed(rs: seq<Range>, passed: set<int>, more: set<int>, n: int)
    requires AccountedTo(rs, passed, n)
    ensures AccountedTo(rs, passed + more, n)
  {
    forall x | 0 <= x <= n ensures Accounted(rs, passed + more, x) {
      assert Accounted(rs, passed, x);
    }
  }

  lemma {:induction false} AccountedBelow(rs: seq<Range>, passed: set<int>, n: int, m: int)
    requires AccountedTo(rs, passed, n) && m <= n
    ensures AccountedTo(rs, passed, m)
  {
  }

  lemma {:induction false} PublishKeepsInv(s: System, passed: set<int>)
    requires Inv(s, passed) && Step(s, Publish).Some?
    ensures Inv(Step(s, Publish).value, passed)
  {
    hide AccountedTo;
    var r := s.pending[0];
    ChunksUnfold(r.start, s.target);
    AccountedGrows(s.published, r, passed, r.start - 1);
    AccountedBelow(s.published + [r], passed, r.end, r.end - 1);
    if s.pending[1..] != [] {
      ChunksUnfold(r.end, s.target);
    }
    AccountedGrows(s.published, r, passed, s.last);
    forall i | 0 <= i < |s.saved| ensures AccountedTo(s.published + [r], passed, s.saved[i].end) {
      AccountedGrows(s.published, r, passed, s.saved[i].end);
    }
  }

  lemma {:induction false} PollKeepsInv(s: System, version: nat, passed: set<int>)
    requires Inv(s, passed) && Step(s, Poll(version)).Some?
    ensures Inv(Step(s, Poll(version)).value, passed + PassedBy(s, Poll(version)))
  {
    var more := PassedBy(s, Poll(version));
    var rs := s.published;
    MorePassed(rs, passed, more, s.last);
    forall i | 0 <= i < |s.saved| ensures AccountedTo(rs, passed + more, s.saved[i].end) {
      MorePassed(rs, passed, more, s.saved[i].end);
    }
    if s.serialized.Some? && !s.unpublished {
      MorePassed(rs, passed, more, s.serialized.value.end);
    }
    if Chunks(s.last + 1, version) != [] {
      ChunksUnfold(s.last + 1, version);
    } else {
      forall x | 0 <= x <= version ensures Accounted(rs, passed + more, x) {
        assert x <= s.last ==> Accounted(rs, passed, x);
      }
    }
  }

  lemma {:induction false} SignalKeepsInv(s: System, passed: set<int>)
    requires Inv(s, passed) && Step(s, Signal).Some?
    ensures Inv(Step(s, Signal).value, passed + GapOf(s, Signal))
  {
    var more, rs, s' := GapOf(s, Signal), s.published, Step(s, Signal).value;
    MorePassed(rs, passed, more, s.last);
    forall i | 0 <= i < |s'.saved| ensures AccountedTo(rs, passed + more, s'.saved[i].end) {
      if i < |s.saved| {
        MorePassed(rs, passed, more, s.saved[i].end);
      } else if s.unpublished {
        var r := s.serialized.value;
        MorePassed(rs, passed, more, r.start - 1);
        forall x | 0 <= x <= r.end ensures Accounted(rs, passed + more, x) {
          assert x < r.start ==> Accounted(rs, passed + more, x);
        }
      } else {
        MorePassed(rs, passed, more, s.serialized.value.end);
      }
    }
  }

  /** Every step keeps the invariant; one-step polls and signals in the gap only add the versions they concern. */
  lemma {:induction false} StepKeepsInv(s: System, e: Event, passed: set<int>)
    requires Inv(s, passed) && Step(s, e).Some?
    ensures Inv(Step(s, e).value, passed + PassedBy(s, e) + GapOf(s, e))
  {
    hide AccountedTo;
    if e.Poll? {
      PollKeepsInv(s, e.version, passed);
      assert passed + PassedBy(s, e) + GapOf(s, e) == passed + PassedBy(s, e);
    } else if e.Signal? {
      SignalKeepsInv(s, passed);
      assert passed + PassedBy(s, e) + GapOf(s, e) == passed + GapOf(s, e);
    } else {
      assert passed + PassedBy(s, e) + GapOf(s, e) == passed;
      if e.Publish? {
        PublishKeepsInv(s, passed);
      } else if e.Start? {
        assert AccountedTo(s.published, passed, -1) by {
          NothingBelowZero(s.published, passed);
        }
      }
    }
  }

  lemma {:induction false} NothingBelowZero(rs: seq<Range>, passed: set<int>)
    ensures AccountedTo(rs, passed, -1)
  {
  }

  /** Every run keeps the invariant. */
  lemma {:induction false} RunsKeepInv(es: seq<Event>)
    requires Run(Init, es).Some?
    ensures Inv(Run(Init, es).value, PassedOver(Init, es) + SavedInGap(Init, es))
  {
    hide Inv, Step, PassedBy, GapOf;
    if es == [] {
      InitInv();
      assert PassedOver(Init, es) + SavedInGap(Init, es) == {};
    } else {
      var before, e := es[..|es| - 1], es[|es| - 1];
      var s := Run(Init, before).value;
      RunsKeepInv(before);
      StepKeepsInv(s, e, PassedOver(Init, before) + SavedInGap(Init, before));
      assert PassedOver(Init, es) + SavedInGap(Init, es)
          == PassedOver(Init, before) + SavedInGap(Init, before) + PassedBy(s, e) + GapOf(s, e);
    }
  }

  lemma {:induction false} InitInv()
    ensures Inv(Init, {})
  {
  }

  /** Over any polls, stops, crashes and resumptions, every version up to the last indexed end is covered by a published
      range, or some poll advanced by exactly one onto it, or some signal saved its range before it was published. */
  lemma {:induction false} NothingLost(es: seq<Event>, x: int)
    requires Run(Init, es).Some? && 0 <= x <= Run(Init, es).value.last
    ensures Covered(Run(Init, es).value.published, x) || x in PassedOver(Init, es) || x in SavedInGap(Init, es)
  {
    RunsKeepInv(es);
    assert Accounted(Run(Init, es).value.published, PassedOver(Init, es) + SavedInGap(Init, es), x);
  }

  /** A range published since the process last started reaches down to the point it resumed from. */
  ghost predicate ReachesDown(s: System) {
    exists i :: s.resumedWith <= i < |s.published| && s.published[i].start <= s.resumedAt
  }

  /** What the running process has published since it resumed lies past the point it resumed from. */
  ghost predicate Ahead(s: System) {
    && s.resumedWith <= |s.published|
    && (s.running ==> s.last >= s.resumedAt)
    && !ReachesDown(s)
    && (s.pending != [] ==>
          s.pending == Chunks(s.pending[0].start, s.target) && s.pending[0].start > s.resumedAt && s.target >= s.resumedAt)
  }

  /** The ledger does not go back below the point the process resumed from. */
  predicate LedgerAhead(s: System, e: Event) {
    e.Poll? ==> e.version >= s.resumedAt
  }

  lemma {:induction false} StepStaysAhead(s: System, e: Event)
    requires Ahead(s) && Step(s, e).Some? && LedgerAhead(s, e)
    ensures Ahead(Step(s, e).value)
  {
    match e
    case Poll(version) =>
      if Chunks(s.last + 1, version) != [] {
        ChunksUnfold(s.last + 1, version);
      }
    case Publish => ChunksUnfold(s.pending[0].start, s.target);
    case _ =>
  }

  predicate LedgerNeverBehind(s: System, es: seq<Event>) {
    es != [] ==>
      && LedgerNeverBehind(s, es[..|es| - 1])
      && (Run(s, es[..|es| - 1]).Some? ==> LedgerAhead(Run(s, es[..|es| - 1]).value, es[|es| - 1]))
  }

  /** As long as the node never reports a version behind the point it resumed from, a process publishes nothing the saved
      range covers, nor anything before it. */
  lemma {:induction false} SavedRangeNotCoveredAgain(es: seq<Event>)
    requires Run(Init, es).Some? && LedgerNeverBehind(Init, es)
    ensures Ahead(Run(Init, es).value) && !ReachesDown(Run(Init, es).value)
  {
    hide Step, Ahead;
    if es == [] {
      InitAhead();
    } else {
      SavedRangeNotCoveredAgain(es[..|es| - 1]);
      StepStaysAhead(Run(Init, es[..|es| - 1]).value, es[|es| - 1]);
    }
  }

  lemma {:induction false} InitAhead()
    ensures Ahead(Init)
  {
  }

  /** Since the process last started, a range was published for a poll that was made from behind the point the process
      resumed from: an earlier poll had reported a version behind it. */
  predicate PublishesFromBehind(s: System, es: seq<Event>) {
    if es == [] then false
    else
      var init, e := es[..|es| - 1], es[|es| - 1];
      if e.Start? then false
      else
        || PublishesFromBehind(s, init)
        || (e.Publish? && Run(s, init).Some? && Run(s, init).value.last < Run(s, init).value.resumedAt)
  }

  /** A range published since the process last started begins at the given version. */
  ghost predicate StartsAt(s: System, x: int) {
    exists i :: s.resumedWith <= i < |s.published| && s.published[i].start == x
  }

  /** Whether the process has published at or below its starting point, and where its current poll began. */
  ghost predicate Begun(s: System, behind: bool) {
    && s.resumedWith <= |s.published| && s.last >= -1
    && (behind <==> ReachesDown(s))
    && (s.pending != [] ==>
          && s.pending == Chunks(s.pending[0].start, s.target) && s.pending[0].start > s.last
          && (s.pending[0].start == s.last + 1 || StartsAt(s, s.last + 1)))
  }

  lemma {:induction false} PublishAppends(s: System, s': System, r: Range, x: int)
    requires s.resumedWith <= |s.published| && s'.published == s.published + [r]
    requires s'.resumedWith == s.resumedWith && s'.resumedAt == s.resumedAt
    ensures StartsAt(s', x) <==> StartsAt(s, x) || r.start == x
    ensures ReachesDown(s') <==> ReachesDown(s) || r.start <= s.resumedAt
  {
    assert s'.published[|s.published|] == r;
    if StartsAt(s, x) {
      var i :| s.resumedWith <= i < |s.published| && s.published[i].start == x;
      assert s'.published[i].start == x;
    }
    if ReachesDown(s) {
      var i :| s.resumedWith <= i < |s.published| && s.published[i].start <= s.resumedAt;
      assert s'.published[i].start <= s'.resumedAt;
    }
  }

  lemma {:induction false} PublishBegun(s: System, behind: bool)
    requires Begun(s, behind) && Step(s, Publish).Some?
    ensures Begun(Step(s, Publish).value, behind || s.last < s.resumedAt)
  {
    hide StartsAt, ReachesDown;
    var s', r := Step(s, Publish).value, s.pending[0];
    ChunksUnfold(r.start, s.target);
    PublishAppends(s, s', r, s.last + 1);
    if s.last < s.resumedAt && r.start != s.last + 1 {
      StartsBelow(s);
    }
    if s.pending[1..] != [] {
      ChunksUnfold(r.end, s.target);
    }
  }

  lemma {:induction false} StartsBelow(s: System)
    requires StartsAt(s, s.last + 1) && s.last < s.resumedAt
    ensures ReachesDown(s)
  {
    var i :| s.resumedWith <= i < |s.published| && s.published[i].start == s.last + 1;
    assert s.published[i].start <= s.resumedAt;
  }

  lemma {:induction false} StepBegun(s: System, e: Event, behind: bool)
    requires Begun(s, behind) && Step(s, e).Some?
    ensures Begun(Step(s, e).value, !e.Start? && (behind || (e.Publish? && s.last < s.resumedAt)))
  {
    match e
    case Poll(version) =>
      if Chunks(s.last + 1, version) != [] {
        ChunksUnfold(s.last + 1, version);
      }
    case Publish => PublishBegun(s, behind);
    case _ =>
  }

  /** In any run, the process publishes something at or below the point it resumed from, which the saved range covers or
      precedes, if and only if it publishes for a poll made from behind that point. */
  lemma {:induction false} CoversSavedAgainExactly(es: seq<Event>)
    requires Run(Init, es).Some?
    ensures ReachesDown(Run(Init, es).value) <==> PublishesFromBehind(Init, es)
    ensures Begun(Run(Init, es).value, PublishesFromBehind(Init, es))
  {
    hide Step, Begun, ReachesDown;
    if es == [] {
      InitBegun();
    } else {
      var init, e := es[..|es| - 1], es[|es| - 1];
      CoversSavedAgainExactly(init);
      StepBegun(Run(Init, init).value, e, PublishesFromBehind(Init, init));
    }
    BegunReaches(Run(Init, es).value, PublishesFromBehind(Init, es));
  }

  lemma {:induction false} BegunReaches(s: System, behind: bool)
    requires Begun(s, behind)
    ensures behind <==> ReachesDown(s)
  {
  }

  lemma {:induction false} InitBegun()
    ensures Begun(Init, false)
  {
  }

  lemma {:induction false} RunAppend(s: System, a: seq<Event>, e: Event)
    requires Run(s, a).Some?
    ensures Run(s, a + [e]) == Step(Run(s, a).value, e)
  {
    hide Step;
    assert (a + [e])[..|a|] == a;
  }

  /** In any run, a signal between serialising and publishing, and a resumption from what it saved: the process goes on
      after the range although the range was never published. Of its versions exactly those covered before are covered;
      if everything published so far ends before the range, none is. */
  lemma {:induction false} GapSignalLosesExactly(es: seq<Event>, x: int)
    requires Run(Init, es).Some? && Run(Init, es).value.unpublished && Run(Init, es).value.pending != []
    requires Run(Init, es).value.pending[0].start <= x <= Run(Init, es).value.pending[0].end
    ensures
      var s := Run(Init, es).value;
      var s' := Run(Init, es + [Signal] + [Start(Some(|s.saved|))]);
      && s'.Some? && s'.value.last == s.pending[0].end
      && (Covered(s'.value.published, x) <==> Covered(s.published, x))
      && ((forall i :: 0 <= i < |s.published| ==> s.published[i].end < s.pending[0].start) ==>
            !Covered(s'.value.published, x))
  {
    hide Run;
    RunsKeepInv(es);
    var s := Run(Init, es).value;
    RunAppend(Init, es, Signal);
    var s1 := Step(s, Signal).value;
    RunAppend(Init, es + [Signal], Start(Some(|s.saved|)));
    assert s1.saved[|s.saved|] == s.pending[0];
  }

  /** The last of the ranges sent when a signal lands in the gap: saved, never published, and its versions lost. */
  lemma {:induction false} GapSignalLosesVersions()
    ensures
      var es := [Start(None), Poll(100), Serialize, Signal, Start(Some(0))];
      && Run(Init, es).Some? && Run(Init, es).value.last == 100
      && PassedOver(Init, es) == {}
      && !Covered(Run(Init, es).value.published, 50)
  {
    var e0, e1, e2, e3, e4 := Start(None), Poll(100), Serialize, Signal, Start(Some(0));
    var t0, t1, t2, t3, t4 := [e0], [e0, e1], [e0, e1, e2], [e0, e1, e2, e3], [e0, e1, e2, e3, e4];
    assert t0[..0] == [] && t1[..1] == t0 && t2[..2] == t1 && t3[..3] == t2 && t4[..4] == t3;
    assert Chunks(100, 100) == [] && Chunks(0, 100) == [Range(0, 100)] + [] == [Range(0, 100)];
    assert Run(Init, []) == Some(Init);
    var s0 := Started(Init, -1, []);
    assert Run(Init, t0) == Some(s0);
    var s1 := s0.(pending := [Range(0, 100)], target := 100);
    assert Run(Init, t1) == Some(s1);
    var s2 := s1.(serialized := Some(Range(0, 100)), unpublished := true);
    assert Run(Init, t2) == Some(s2);
    assert s2.saved + [Range(0, 100)] == [Range(0, 100)];
    var s3 := Halted(s2.(saved := [Range(0, 100)]));
    assert Run(Init, t3) == Some(s3);
    assert s3.saved[..0] + s3.saved[1..] == [];
    assert Run(Init, t4) == Some(Started(s3, 100, []));
    assert PassedOver(Init, t0) == {} && PassedOver(Init, t1) == {} && PassedOver(Init, t2) == {} && PassedOver(Init, t3) == {};
  }

  /** The steps of one poll that is not interrupted. */
  function PollEvents(version: nat, chunks: nat): seq<Event> {
    if chunks == 0 then [Poll(version)] else PollEvents(version, chunks - 1) + [Serialize, Publish]
  }

  lemma {:induction false} RunTwoMore(s: System, es: seq<Event>, e: Event, f: Event)
    requires Run(s, es).Some? && Step(Run(s, es).value, e).Some?
    ensures Run(s, es + [e, f]) == Step(Step(Run(s, es).value, e).value, f)
  {
    hide Step;
    var both := es + [e, f];
    assert both[..|both| - 1] == es + [e];
    assert (es + [e])[..|es|] == es;
  }

  /** After n of a poll's ranges have been sent. */
  lemma {:induction false} PollProgress(s: System, version: nat, n: nat)
    requires s.running && s.pending == [] && !s.unpublished && s.last >= -1
    requires n <= |Chunks(s.last + 1, version)|
    ensures
      var chunks := Chunks(s.last + 1, version);
      var r := Run(s, PollEvents(version, n));
      && r.Some? && r.value.running && !r.value.unpublished
      && r.value.pending == chunks[n..] && r.value.target == version
      && r.value.published == s.published + chunks[..n]
      && r.value.last == (if n == |chunks| then version else s.last)
      && r.value.serialized == (if n == 0 then s.serialized else Some(chunks[n - 1]))
  {
    var chunks := Chunks(s.last + 1, version);
    if n == 0 {
      assert [Poll(version)][..0] == [];
      assert chunks[0..] == chunks && s.published + chunks[..0] == s.published;
    } else {
      PollProgress(s, version, n - 1);
      var es := PollEvents(version, n - 1);
      RunTwoMore(s, es, Serialize, Publish);
      assert chunks[n - 1..][0] == chunks[n - 1] && chunks[n - 1..][1..] == chunks[n..];
      assert chunks[..n] == chunks[..n - 1] + [chunks[n - 1]];
    }
  }

  /** An uninterrupted poll of the transition system does what the process's Poll does. */
  lemma {:induction false} PollIsItsSteps(s: System, version: nat)
    requires s.running && s.pending == [] && !s.unpublished && s.last >= -1
    ensures
      var chunks := Chunks(s.last + 1, version);
      var r := Run(s, PollEvents(version, |chunks|));
      && r.Some? && r.value.last == version && r.value.published == s.published + chunks && r.value.pending == []
      && r.value.serialized == if chunks == [] then s.serialized else Some(chunks[|chunks| - 1])
  {
    var chunks := Chunks(s.last + 1, version);
    PollProgress(s, version, |chunks|);
    assert chunks[..|chunks|] == chunks;
  }
}
