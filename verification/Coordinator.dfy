/** The coordinator that slices the ledger into ranges (indexing_coordinator/publish_ranges.py). */
module Coordinator {
  import opened Wrappers

  /** The range message. Workers read it as [start, end], both ends included. */
  datatype Range = Range(start: nat, end: nat)

  predicate Covers(r: Range, x: int) {
    r.start <= x <= r.end
  }

  predicate Covered(rs: seq<Range>, x: int) {
    exists i :: 0 <= i < |rs| && Covers(rs[i], x)
  }

  /** How many of the ranges cover x. */
  function Count(rs: seq<Range>, x: int): nat {
    if rs == [] then 0 else Count(rs[1..], x) + (if Covers(rs[0], x) then 1 else 0)
  }

  const STEP := 999

  function Min(a: int, b: int): int {
    if a < b then a else b
  }

  /** What `range_generator` yields: half-open pieces of [start, end), each of at most 999 values. */
  function Chunks(start: nat, end: nat): seq<Range>
    decreases end - start
  {
    if start >= end then [] else [Range(start, Min(start + STEP, end))] + Chunks(Min(start + STEP, end), end)
  }

  /** Piece i starts 999 i values after the first and ends where the next one starts, the last at the end; read with both
      ends included, a piece is of at most 1000 versions. */
  lemma {:induction false} ChunksExactly(start: nat, end: nat, i: nat)
    requires i < |Chunks(start, end)|
    ensures start + 999 * i < end && Chunks(start, end)[i] == Range(start + 999 * i, Min(start + 999 * (i + 1), end))
    ensures |Chunks(start, end)| == (end - start + 998) / 999
    decreases end - start
  {
    var next := Min(start + 999, end);
    if i > 0 {
      ChunksExactly(next, end, i - 1);
    } else if next < end {
      ChunksExactly(next, end, 0);
    }
  }

  /** Read inclusively, the pieces cover every version once, and every interior piece start twice. */
  lemma {:induction false} ChunksCount(start: nat, end: nat, x: int)
    requires start < end
    ensures Count(Chunks(start, end), x) ==
      if x < start || x > end then 0
      else if start < x < end && (x - start) % STEP == 0 then 2
      else 1
    decreases end - start
  {
    var next := Min(start + STEP, end);
    var first, rest := Range(start, next), Chunks(next, end);
    assert Chunks(start, end) == [first] + rest;
    assert ([first] + rest)[1..] == rest;
    if next < end {
      ChunksCount(next, end, x);
      assert x > next ==> (x - start) % STEP == (x - next) % STEP;
      assert start < x < next ==> (x - start) % STEP == x - start;
    } else {
      assert start < x < end ==> (x - start) % STEP == x - start;
    }
  }

  lemma {:induction false} CountAppend(a: seq<Range>, b: seq<Range>, x: int)
    ensures Count(a + b, x) == Count(a, x) + Count(b, x)
  {
    if a == [] {
      assert a + b == b;
    } else {
      CountAppend(a[1..], b, x);
      assert (a + b)[1..] == a[1..] + b;
    }
  }

  lemma {:induction false} CountExactly(rs: seq<Range>, x: int)
    ensures Count(rs, x) > 0 <==> Covered(rs, x)
  {
    if rs != [] {
      CountExactly(rs[1..], x);
      if Covered(rs[1..], x) {
        var i :| 0 <= i < |rs[1..]| && Covers(rs[1..][i], x);
        assert Covers(rs[i + 1], x);
      }
      if Covered(rs, x) && !Covers(rs[0], x) {
        var i :| 0 <= i < |rs| && Covers(rs[i], x);
        assert Covers(rs[1..][i - 1], x);
      }
    }
  }

  // Polling

  /** The polled version before poll i. */
  function Before(last: int, polls: seq<nat>, i: nat): int
    requires i <= |polls|
  {
    if i == 0 then last else polls[i - 1]
  }

  predicate NonDecreasing(last: int, polls: seq<nat>) {
    forall i :: 0 <= i < |polls| ==> Before(last, polls, i) <= polls[i]
  }

  /** Everything published by the polls, starting with last as the last indexed version. */
  function Published(last: int, polls: seq<nat>): seq<Range>
    requires last >= -1
  {
    if polls == [] then []
    else
      var n := |polls| - 1;
      Published(last, polls[..n]) + Chunks(Before(last, polls, n) + 1, polls[n])
  }

  lemma {:induction false} BeforeInPrefix(last: int, polls: seq<nat>, n: nat, i: nat)
    requires i <= n <= |polls|
    ensures Before(last, polls[..n], i) == Before(last, polls, i)
  {
  }

  lemma {:induction false} PollsAscend(last: int, polls: seq<nat>, i: nat, j: nat)
    requires NonDecreasing(last, polls) && i <= j <= |polls|
    ensures Before(last, polls, i) <= Before(last, polls, j)
  {
    if i < j {
      PollsAscend(last, polls, i, j - 1);
    }
  }

  lemma {:induction false} PrefixNonDecreasing(last: int, polls: seq<nat>, n: nat)
    requires NonDecreasing(last, polls) && n <= |polls|
    ensures NonDecreasing(last, polls[..n])
  {
    forall i | 0 <= i < n ensures Before(last, polls[..n], i) <= polls[..n][i] {
      BeforeInPrefix(last, polls, n, i);
    }
  }

  /** Nothing is published for versions up to the starting point or past the last poll. */
  lemma {:induction false} OutsideUncovered(last: int, polls: seq<nat>, x: int)
    requires last >= -1 && NonDecreasing(last, polls)
    requires x <= last || x > Before(last, polls, |polls|)
    ensures Count(Published(last, polls), x) == 0
  {
    if polls != [] {
      var n := |polls| - 1;
      PrefixNonDecreasing(last, polls, n);
      BeforeInPrefix(last, polls, n, n);
      PollsAscend(last, polls, 0, n);
      OutsideUncovered(last, polls[..n], x);
      OnePoll(Before(last, polls, n), polls[n], x);
      CountAppend(Published(last, polls[..n]), Chunks(Before(last, polls, n) + 1, polls[n]), x);
    }
  }

  /** How often a poll that moves from p to v covers x: never when it advances by exactly one, twice at an interior
      piece start, once otherwise. */
  function TimesCovered(p: int, v: nat, x: int): nat {
    if x <= p || x > v || v == p + 1 then 0
    else if p + 1 < x < v && (x - (p + 1)) % STEP == 0 then 2
    else 1
  }

  lemma {:induction false} CoversNothingBefore(p: int, v: nat, x: int)
    requires x <= p
    ensures TimesCovered(p, v, x) == 0
  {
  }

  lemma {:induction false} OnePoll(p: int, v: nat, x: int)
    requires -1 <= p <= v
    ensures Count(Chunks(p + 1, v), x) == TimesCovered(p, v, x)
  {
    if p + 1 < v {
      ChunksCount(p + 1, v, x);
    }
  }

  /** A version between two polled values is covered only by the poll that reached it. */
  lemma {:induction false} CoverageIsExact(last: int, polls: seq<nat>, i: nat, x: int)
    requires last >= -1 && NonDecreasing(last, polls) && i < |polls|
    requires Before(last, polls, i) < x <= polls[i]
    ensures Count(Published(last, polls), x) == TimesCovered(Before(last, polls, i), polls[i], x)
  {
    hide Count, Chunks, TimesCovered, NonDecreasing;
    var n := |polls| - 1;
    PrefixNonDecreasing(last, polls, n);
    BeforeInPrefix(last, polls, n, i);
    BeforeInPrefix(last, polls, n, n);
    PollsAscend(last, polls, 0, n);
    PollsAscend(last, polls, n, n + 1);
    OnePoll(Before(last, polls, n), polls[n], x);
    CountAppend(Published(last, polls[..n]), Chunks(Before(last, polls, n) + 1, polls[n]), x);
    if i < n {
      CoverageIsExact(last, polls[..n], i, x);
      PollsAscend(last, polls, i + 1, n);
      CoversNothingBefore(Before(last, polls, n), polls[n], x);
    } else {
      OutsideUncovered(last, polls[..n], x);
    }
  }

  /** A poll value one past the value before it. */
  predicate Skipped(last: int, polls: seq<nat>, x: int) {
    exists i :: 0 <= i < |polls| && polls[i] == x && Before(last, polls, i) == x - 1
  }

  lemma {:induction false} PollOf(last: int, polls: seq<nat>, x: int) returns (i: nat)
    requires NonDecreasing(last, polls) && last < x <= Before(last, polls, |polls|)
    ensures i < |polls| && Before(last, polls, i) < x <= polls[i]
  {
    i := |polls| - 1;
    while Before(last, polls, i) >= x
      invariant i < |polls| && x <= polls[i]
      decreases i
    {
      i := i - 1;
    }
  }

  /** The ranges cover exactly the polled versions, minus the values that advanced by exactly one. */
  lemma {:induction false} CoveredExactly(last: int, polls: seq<nat>, x: int)
    requires last >= -1 && NonDecreasing(last, polls)
    ensures Covered(Published(last, polls), x) <==>
      last < x <= Before(last, polls, |polls|) && !Skipped(last, polls, x)
  {
    hide Count, Published, NonDecreasing;
    CountExactly(Published(last, polls), x);
    if x <= last || x > Before(last, polls, |polls|) {
      OutsideUncovered(last, polls, x);
    } else {
      var i := PollOf(last, polls, x);
      CoverageIsExact(last, polls, i, x);
      if Skipped(last, polls, x) {
        var j :| 0 <= j < |polls| && polls[j] == x && Before(last, polls, j) == x - 1;
        if j < i {
          PollsAscend(last, polls, j + 1, i);
        } else if i < j {
          PollsAscend(last, polls, i + 1, j);
        }
      }
    }
  }

  /** Some range starts at or before x. */
  predicate StartsBy(rs: seq<Range>, x: int) {
    exists k :: 0 <= k < |rs| && rs[k].start <= x
  }

  lemma {:induction false} StartsByAppend(a: seq<Range>, b: seq<Range>, x: int)
    ensures StartsBy(a + b, x) <==> StartsBy(a, x) || StartsBy(b, x)
  {
    if k :| 0 <= k < |a| && a[k].start <= x {
      assert (a + b)[k].start <= x;
    }
    if k :| 0 <= k < |b| && b[k].start <= x {
      assert (a + b)[|a| + k].start <= x;
    }
    if k :| 0 <= k < |a + b| && (a + b)[k].start <= x {
      assert k < |a| ==> a[k].start <= x;
      assert k >= |a| ==> b[k - |a|].start <= x;
    }
  }

  lemma {:induction false} ChunksStartBy(start: nat, end: nat, x: int)
    ensures StartsBy(Chunks(start, end), x) <==> start < end && start <= x
    decreases end - start
  {
    if start < end {
      var first, rest := Range(start, Min(start + STEP, end)), Chunks(Min(start + STEP, end), end);
      ChunksStartBy(Min(start + STEP, end), end, x);
      StartsByAppend([first], rest, x);
      assert start <= x ==> [first][0].start <= x;
    }
  }

  /** Some poll starts below the point the process began at and publishes: the node reported a version behind it. */
  predicate GoesBack(last: int, polls: seq<nat>, n: nat)
    requires n <= |polls|
  {
    exists i :: 0 <= i < n && Before(last, polls, i) < last && polls[i] > Before(last, polls, i) + 1
  }

  lemma {:induction false} GoesBackUnfolds(last: int, polls: seq<nat>, n: nat)
    requires n < |polls|
    ensures GoesBack(last, polls, n + 1) <==>
      GoesBack(last, polls[..n], n) || (Before(last, polls, n) < last && polls[n] > Before(last, polls, n) + 1)
  {
    hide Before;
    forall i | 0 <= i < n ensures Before(last, polls[..n], i) == Before(last, polls, i) {
      BeforeInPrefix(last, polls, n, i);
    }
    if GoesBack(last, polls[..n], n) {
      var i :| 0 <= i < n && Before(last, polls[..n], i) < last && polls[..n][i] > Before(last, polls[..n], i) + 1;
      assert Before(last, polls, i) < last && polls[i] > Before(last, polls, i) + 1;
    }
    if GoesBack(last, polls, n + 1) {
      var i :| 0 <= i < n + 1 && Before(last, polls, i) < last && polls[i] > Before(last, polls, i) + 1;
      assert i < n ==> Before(last, polls[..n], i) < last && polls[..n][i] > Before(last, polls[..n], i) + 1;
    }
  }

  lemma {:induction false} NothingGoesBack(last: int)
    requires last >= -1
    ensures !GoesBack(last, [], 0) && !StartsBy(Published(last, []), last)
  {
  }

  /** For any polls, also ones that go back, a range that reaches down to the starting point is published exactly when
      some poll reported a version behind it and a later one published from there. */
  lemma {:induction false} CoversStartAgainExactly(last: int, polls: seq<nat>)
    requires last >= -1
    ensures StartsBy(Published(last, polls), last) <==> GoesBack(last, polls, |polls|)
  {
    hide GoesBack, StartsBy, Chunks;
    if polls == [] {
      NothingGoesBack(last);
    } else {
      var n := |polls| - 1;
      var start := Before(last, polls, n) + 1;
      CoversStartAgainExactly(last, polls[..n]);
      ChunksStartBy(start, polls[n], last);
      StartsByAppend(Published(last, polls[..n]), Chunks(start, polls[n]), last);
      GoesBackUnfolds(last, polls, n);
    }
  }

  // The process

  datatype SignalError = AssertionError

  /** The polling process: its globals and what it has published. */
  class Process {
    var lastIndexedEnd: int
    var serialized: Option<Range>
    var published: seq<Range>

    /** The range serialised last is the range published last. */
    ghost predicate Valid()
      reads this
    {
      lastIndexedEnd >= -1 && serialized == if published == [] then None else Some(published[|published| - 1])
    }

    /** `pick_up_from_previous_run`: resume after the pulled range, or start from genesis. */
    constructor (pulled: Option<Range>)
      ensures Valid() && published == []
      ensures lastIndexedEnd == if pulled.Some? then pulled.value.end else -1
    {
      lastIndexedEnd := if pulled.Some? then pulled.value.end else -1;
      serialized := None;
      published := [];
    }

    /** One iteration of the polling loop, the generator's loop included. */
    method Poll(ledgerVersion: nat)
      requires Valid()
      modifies this
      ensures Valid() && lastIndexedEnd == ledgerVersion
      ensures published == old(published) + Chunks(old(lastIndexedEnd) + 1, ledgerVersion)
    {
      var current := lastIndexedEnd + 1;
      while current < ledgerVersion
        invariant current >= 0 && lastIndexedEnd == old(lastIndexedEnd) && Valid()
        invariant published + Chunks(current, ledgerVersion) == old(published) + Chunks(old(lastIndexedEnd) + 1, ledgerVersion)
        decreases ledgerVersion - current
      {
        var nextPosition := Min(current + STEP - 1, ledgerVersion - 1);
        var r := Range(current, nextPosition + 1);
        ghost var before, rest := published, Chunks(nextPosition + 1, ledgerVersion);
        assert Chunks(current, ledgerVersion) == [r] + rest;
        serialized := Some(r);
        published := published + [r];
        assert published + rest == before + ([r] + rest);
        current := nextPosition + 1;
      }
      assert published + [] == published;
      lastIndexedEnd := ledgerVersion;
    }

    /** `signal_handler` between polls: it saves the range published last; before the first one its assertion fails and
        nothing is saved. */
    method HandleSignal() returns (saved: Result<Range, SignalError>)
      requires Valid()
      ensures saved.Failure? <==> published == []
      ensures saved.Success? ==> published[|published| - 1] == saved.value
    {
      if serialized.None? {
        return Failure(AssertionError);
      }
      return Success(serialized.value);
    }
  }
}
