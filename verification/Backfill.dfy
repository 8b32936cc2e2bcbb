/** The daily backfill that finds and republishes missing versions (daily_qc_airflow/daily_backfill_mainnet.py). */
module Backfill {
  import opened Wrappers
  import opened Coordinator

  datatype BackfillError = IndexError

  predicate Ascending(ns: seq<nat>) {
    forall i, j :: 0 <= i < j < |ns| ==> ns[i] <= ns[j]
  }

  predicate StrictlyAscending(ns: seq<nat>) {
    forall i, j :: 0 <= i < j < |ns| ==> ns[i] < ns[j]
  }

  /** Python's `range(lo, hi)` as a list. */
  function Interval(lo: nat, hi: nat): (r: seq<nat>)
    ensures forall x :: x in r <==> lo <= x < hi
    ensures StrictlyAscending(r)
  {
    if hi <= lo then []
    else
      var before := Interval(lo, hi - 1);
      assert forall i :: 0 <= i < |before| ==> before[i] in before;
      before + [hi - 1]
  }

  /** `generate_array`: first to last of the queried versions; an empty query result has no first. */
  function GenerateArray(versions: seq<nat>): Result<seq<nat>, BackfillError> {
    if versions == [] then Failure(IndexError) else Success(Interval(versions[0], versions[|versions| - 1] + 1))
  }

  /** `check_missing_values_f`: the comprehension over all integers. */
  function CheckMissing(all: seq<nat>, present: seq<nat>): (r: seq<nat>)
    requires StrictlyAscending(all)
    ensures forall x :: x in r <==> x in all && x !in present
    ensures StrictlyAscending(r)
  {
    if all == [] then []
    else
      var n := |all| - 1;
      var before := CheckMissing(all[..n], present);
      assert all == all[..n] + [all[n]];
      assert forall i :: 0 <= i < |before| ==> before[i] in before;
      if all[n] in present then before else before + [all[n]]
  }

  // Grouping

  /** The runs of consecutive values, built left to right. */
  function Runs(ns: seq<nat>): (r: seq<Range>)
    ensures ns != [] ==> r != [] && r[|r| - 1].end == ns[|ns| - 1]
  {
    if ns == [] then []
    else
      var n := ns[|ns| - 1];
      var before := Runs(ns[..|ns| - 1]);
      if before == [] || n > before[|before| - 1].end + 1 then before + [Range(n, n)]
      else before[..|before| - 1] + [Range(before[|before| - 1].start, n)]
  }

  /** The grouping loop of `publish_range_f`, its `for`'s `else` included. */
  method GroupRanges(missing: seq<nat>) returns (ranges: seq<Range>)
    ensures ranges == Runs(missing)
  {
    ranges := [];
    if |missing| > 1 {
      var curStart, curEnd := missing[0], missing[0];
      assert Runs(missing[..1]) == [Range(missing[0], missing[0])] by {
        assert missing[..1][..0] == [];
      }
      for i := 1 to |missing|
        invariant curEnd == missing[i - 1]
        invariant ranges + [Range(curStart, curEnd)] == Runs(missing[..i])
      {
        var n := missing[i];
        assert missing[..i + 1][..i] == missing[..i];
        ghost var before := Runs(missing[..i]);
        assert before[|before| - 1] == Range(curStart, curEnd) && before[..|before| - 1] == ranges;
        if n > curEnd + 1 {
          ranges := ranges + [Range(curStart, curEnd)];
          curStart := n;
        }
        curEnd := n;
      }
      ranges := ranges + [Range(curStart, curEnd)];
      assert missing[..|missing|] == missing;
    } else if |missing| == 1 {
      assert missing[..0] == [];
      ranges := [Range(missing[0], missing[0])];
    }
  }

  /** How many publishes are made before the first one that raises; `raising` names the calls that do. */
  function BeforeFailure(n: nat, raising: set<nat>): (r: nat)
    ensures r <= n && (r < n ==> r in raising)
    ensures forall i :: 0 <= i < r ==> i !in raising
  {
    if n == 0 then 0
    else
      var before := BeforeFailure(n - 1, raising);
      if before < n - 1 || n - 1 in raising then before else n
  }

  /** The ranges that reach the topic: a publish that raises ends the loop, and `finally: return` drops the exception. */
  function SentRanges(ranges: seq<Range>, raising: set<nat>): seq<Range> {
    ranges[..BeforeFailure(|ranges|, raising)]
  }

  /** The three steps chained: query result to published ranges. The last step never fails. */
  method PublishMissing(versions: seq<nat>, raising: set<nat>) returns (r: Result<seq<Range>, BackfillError>)
    ensures versions == [] ==> r == Failure(IndexError)
    ensures versions != [] ==> r == Success(SentRanges(Runs(MissingOf(versions)), raising))
  {
    var all := GenerateArray(versions);
    if all.Failure? {
      return Failure(all.error);
    }
    var ranges := GroupRanges(CheckMissing(all.value, versions));
    var sent: seq<Range> := [];
    for i := 0 to |ranges|
      invariant sent == ranges[..i] && forall k :: 0 <= k < i ==> k !in raising
    {
      if i in raising {
        return Success(sent);
      }
      sent := sent + [ranges[i]];
    }
    return Success(sent);
  }

  function MissingOf(versions: seq<nat>): (r: seq<nat>)
    requires versions != []
    ensures forall x :: x in r <==> versions[0] <= x <= versions[|versions| - 1] && x !in versions
    ensures StrictlyAscending(r)
  {
    CheckMissing(Interval(versions[0], versions[|versions| - 1] + 1), versions)
  }

  // What the ranges are

  /** Sorted, disjoint and not adjacent. */
  predicate Separated(rs: seq<Range>) {
    && (forall i :: 0 <= i < |rs| ==> rs[i].start <= rs[i].end)
    && (forall i, j :: 0 <= i < j < |rs| ==> rs[i].end + 1 < rs[j].start)
  }

  /** The ranges hold exactly the listed values. */
  ghost predicate HoldExactly(rs: seq<Range>, ns: seq<nat>) {
    forall x: nat :: Covered(rs, x) <==> x in ns
  }

  lemma {:induction false} CoveredPush(rs: seq<Range>, r: Range, x: int)
    ensures Covered(rs + [r], x) <==> Covered(rs, x) || Covers(r, x)
  {
    if Covered(rs, x) {
      var i :| 0 <= i < |rs| && Covers(rs[i], x);
      assert Covers((rs + [r])[i], x);
    }
    if Covers(r, x) {
      assert Covers((rs + [r])[|rs|], x);
    }
  }

  lemma {:induction false} PushRun(before: seq<Range>, ns: seq<nat>, n: nat)
    requires Separated(before) && HoldExactly(before, ns)
    requires before != [] ==> n > before[|before| - 1].end + 1
    ensures Separated(before + [Range(n, n)]) && HoldExactly(before + [Range(n, n)], ns + [n])
  {
    hide Covered;
    forall x: nat ensures Covered(before + [Range(n, n)], x) <==> x in ns + [n] {
      CoveredPush(before, Range(n, n), x);
    }
  }

  lemma {:induction false} ExtendRun(init: seq<Range>, last: Range, ns: seq<nat>, n: nat)
    requires Separated(init + [last]) && HoldExactly(init + [last], ns) && n == last.end + 1
    ensures Separated(init + [Range(last.start, n)]) && HoldExactly(init + [Range(last.start, n)], ns + [n])
  {
    hide Covered;
    var before, after := init + [last], init + [Range(last.start, n)];
    assert forall i :: 0 <= i < |init| ==> before[i] == after[i];
    assert before[|init|] == last;
    forall x: nat ensures Covered(after, x) <==> x in ns + [n] {
      CoveredPush(init, last, x);
      CoveredPush(init, Range(last.start, n), x);
    }
  }

  /** Grouping an ascending list gives separated ranges that hold exactly its values. */
  lemma {:induction false} RunsHoldExactly(ns: seq<nat>)
    requires StrictlyAscending(ns)
    ensures Separated(Runs(ns)) && HoldExactly(Runs(ns), ns)
  {
    hide Covered, Separated, HoldExactly;
    if ns == [] {
      NothingHeld();
    } else {
      var k := |ns| - 1;
      var n, before := ns[k], Runs(ns[..k]);
      RunsHoldExactly(ns[..k]);
      assert ns == ns[..k] + [n];
      if before == [] || n > before[|before| - 1].end + 1 {
        PushRun(before, ns[..k], n);
      } else {
        var init, last := before[..|before| - 1], before[|before| - 1];
        assert before == init + [last] && last.end == ns[k - 1];
        ExtendRun(init, last, ns[..k], n);
      }
    }
  }

  lemma {:induction false} NothingHeld()
    ensures Separated([]) && HoldExactly([], [])
  {
  }

  /** The published ranges: separated runs of the versions missing between the first and the last one present. */
  lemma {:induction false} RangesAreTheMissingRuns(versions: seq<nat>)
    requires versions != [] && Ascending(versions)
    ensures
      var rs := Runs(MissingOf(versions));
      && Separated(rs)
      && forall x: nat :: Covered(rs, x) <==> versions[0] <= x <= versions[|versions| - 1] && x !in versions
  {
    RunsHoldExactly(MissingOf(versions));
  }

  lemma {:induction false} NeighboursUncovered(rs: seq<Range>, i: nat)
    requires Separated(rs) && i < |rs|
    ensures Covered(rs, rs[i].start) && Covered(rs, rs[i].end)
    ensures !Covered(rs, rs[i].start - 1) && !Covered(rs, rs[i].end + 1)
  {
    assert Covers(rs[i], rs[i].start) && Covers(rs[i], rs[i].end);
    forall j | 0 <= j < |rs| ensures !Covers(rs[j], rs[i].start - 1) && !Covers(rs[j], rs[i].end + 1) {
    }
  }

  /** With the present versions they fill the interval, and each is as long as it can be. */
  lemma {:induction false} RangesFillAndAreMaximal(versions: seq<nat>, i: nat)
    requires versions != [] && Ascending(versions) && i < |Runs(MissingOf(versions))|
    ensures
      var rs := Runs(MissingOf(versions));
      && rs[i].start > 0 && rs[i].start - 1 in versions && rs[i].end + 1 in versions
      && forall x: nat :: x in versions || Covered(rs, x) <==> versions[0] <= x <= versions[|versions| - 1]
  {
    hide Covered, Separated, Runs, MissingOf;
    var rs := Runs(MissingOf(versions));
    RangesAreTheMissingRuns(versions);
    NeighboursUncovered(rs, i);
    var first, last := versions[0], versions[|versions| - 1];
    assert forall k :: 0 <= k < |versions| ==> first <= versions[k] <= last;
    assert first in versions && last in versions;
    assert first < rs[i].start && rs[i].end < last;
    var before: nat, after: nat := rs[i].start - 1, rs[i].end + 1;
    assert before in versions && after in versions;
  }

  /** What reaches the topic covers exactly the missing versions before the range whose publish raises first; so they are
      all covered if and only if no publish of a range raises, and otherwise the rest is dropped without an error. */
  lemma {:induction false} SentCoverExactly(versions: seq<nat>, raising: set<nat>)
    requires versions != [] && Ascending(versions)
    ensures
      var rs := Runs(MissingOf(versions));
      var sent := SentRanges(rs, raising);
      && (forall x: nat :: Covered(sent, x) <==> Covered(rs, x) && (|sent| < |rs| ==> x < rs[|sent|].start))
      && ((forall x: nat | x in MissingOf(versions) :: Covered(sent, x)) <==> forall i | 0 <= i < |rs| :: i !in raising)
  {
    hide Runs, MissingOf;
    var rs, missing := Runs(MissingOf(versions)), MissingOf(versions);
    var k := BeforeFailure(|rs|, raising);
    assert StrictlyAscending(missing);
    RunsHoldExactly(missing);
    forall x: nat ensures Covered(rs[..k], x) <==> Covered(rs, x) && (k < |rs| ==> x < rs[k].start) {
      PrefixCovers(rs, k, x);
    }
    if k < |rs| {
      assert Covers(rs[k], rs[k].start);
      assert rs[k].start in missing && !Covered(rs[..k], rs[k].start);
    }
  }

  lemma {:induction false} PrefixCovers(rs: seq<Range>, k: nat, x: nat)
    requires Separated(rs) && k <= |rs|
    ensures Covered(rs[..k], x) <==> Covered(rs, x) && (k < |rs| ==> x < rs[k].start)
  {
    if Covered(rs[..k], x) {
      var i :| 0 <= i < k && Covers(rs[..k][i], x);
      assert Covers(rs[i], x);
    }
    if Covered(rs, x) && (k < |rs| ==> x < rs[k].start) {
      var i :| 0 <= i < |rs| && Covers(rs[i], x);
      assert i < k;
      assert Covers(rs[..k][i], x);
    }
  }

  // No fewer ranges would do

  /** No range of the cover holds the starts of two of the ranges. */
  ghost predicate NoneHoldsTwo(rs: seq<Range>, other: seq<Range>) {
    forall i, j, k :: 0 <= i < j < |rs| && 0 <= k < |other| ==> !(Covers(other[k], rs[i].start) && Covers(other[k], rs[j].start))
  }

  lemma {:induction false} OneHolderEach(rs: seq<Range>, other: seq<Range>)
    requires NoneHoldsTwo(rs, other) && forall i :: 0 <= i < |rs| ==> Covered(other, rs[i].start)
    ensures |rs| <= |other|
  {
    if rs != [] {
      var n := |rs| - 1;
      var k :| 0 <= k < |other| && Covers(other[k], rs[n].start);
      var rest := other[..k] + other[k + 1..];
      forall i | 0 <= i < n ensures Covered(rest, rs[i].start) {
        var l :| 0 <= l < |other| && Covers(other[l], rs[i].start);
        assert l != k;
        assert Covers(rest[if l < k then l else l - 1], rs[i].start);
      }
      assert forall l :: 0 <= l < |rest| ==> rest[l] == other[if l < k then l else l + 1];
      OneHolderEach(rs[..n], rest);
    }
  }

  lemma {:induction false} GapAfter(rs: seq<Range>, i: nat)
    requires Separated(rs) && i < |rs| && i + 1 < |rs|
    ensures !Covered(rs, rs[i].end + 1)
  {
    forall j | 0 <= j < |rs| ensures !Covers(rs[j], rs[i].end + 1) {
    }
  }

  /** Separated ranges are the fewest that hold exactly their values. */
  lemma {:induction false} SeparatedIsMinimal(rs: seq<Range>, other: seq<Range>)
    requires Separated(rs) && forall x: nat :: Covered(rs, x) <==> Covered(other, x)
    ensures |rs| <= |other|
  {
    forall i | 0 <= i < |rs| ensures Covered(other, rs[i].start) {
      assert Covers(rs[i], rs[i].start);
    }
    forall i, j, k | 0 <= i < j < |rs| && 0 <= k < |other|
      ensures !(Covers(other[k], rs[i].start) && Covers(other[k], rs[j].start))
    {
      var gap: nat := rs[i].end + 1;
      GapAfter(rs, i);
      assert !Covers(other[k], gap);
    }
    OneHolderEach(rs, other);
  }

  /** Any ranges that hold exactly the missing versions are at least as many as the published ones. */
  lemma {:induction false} RangesAreFewest(versions: seq<nat>, other: seq<Range>)
    requires versions != [] && Ascending(versions)
    requires forall x: nat :: Covered(other, x) <==> versions[0] <= x <= versions[|versions| - 1] && x !in versions
    ensures |Runs(MissingOf(versions))| <= |other|
  {
    RangesAreTheMissingRuns(versions);
    SeparatedIsMinimal(Runs(MissingOf(versions)), other);
  }
}
