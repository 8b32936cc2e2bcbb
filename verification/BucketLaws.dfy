/** The bucket after any interleaving of crashed, refused and repeated attempts, and what the hourly loader reads from it
    (output/gcs.rs `publish_batch`, loader/airflow_dags/dag_hourly_aptos_etl_testnet.py). */
module BucketLaws {
  import opened Wrappers
  import opened Text
  import opened Tables
  import opened Batching
  import opened BatchingLaws
  import RangeExtraction

  // Objects

  /** The objects of a bucket after a list of uploads; a later upload replaces an earlier one at its path. */
  function Store(objects: map<Path, string>, uploads: seq<Upload>): map<Path, string> {
    if uploads == [] then objects
    else
      var u := uploads[|uploads| - 1];
      Store(objects, uploads[..|uploads| - 1])[u.path := u.content]
  }

  /** One range's records of one table; re-extracting a range gives the same. */
  datatype Job = Job(start: nat, end: nat, times: seq<UnixTimestamp>, records: seq<string>)

  predicate AllTimed(jobs: seq<Job>) {
    forall i :: 0 <= i < |jobs| ==> |jobs[i].times| == |jobs[i].records|
  }

  predicate DistinctRanges(jobs: seq<Job>) {
    && AllTimed(jobs)
    && (forall i, j :: 0 <= i < j < |jobs| ==> jobs[i].start != jobs[j].start || jobs[i].end != jobs[j].end)
  }

  function JobUploads(job: Job): seq<Upload>
    requires |job.times| == |job.records|
  {
    CleanUploads(RangeExtraction.RangeName(job.start, job.end), job.times, job.records)
  }

  /** Every job run once, one after the other. */
  function CleanRuns(jobs: seq<Job>): seq<Upload>
    requires AllTimed(jobs)
  {
    if jobs == [] then [] else CleanRuns(jobs[..|jobs| - 1]) + JobUploads(jobs[|jobs| - 1])
  }

  lemma {:induction false} InCleanRuns(jobs: seq<Job>, u: Upload)
    requires AllTimed(jobs)
    ensures u in CleanRuns(jobs) <==> exists i :: 0 <= i < |jobs| && u in JobUploads(jobs[i])
  {
    hide JobUploads;
    if jobs != [] {
      var n := |jobs| - 1;
      InCleanRuns(jobs[..n], u);
      assert forall i :: 0 <= i < n ==> jobs[..n][i] == jobs[i];
      if u in CleanRuns(jobs[..n]) {
        var i :| 0 <= i < n && u in JobUploads(jobs[..n][i]);
        assert u in JobUploads(jobs[i]);
      }
    }
  }

  lemma {:induction false} UploadIndex(job: Job, k: nat) returns (index: nat)
    requires |job.times| == |job.records| && k < |JobUploads(job)|
    ensures JobUploads(job)[k].path.file == FileName(RangeExtraction.RangeName(job.start, job.end), index)
  {
    hide DirOf, FileName, Join, Starts, CleanUploads, IndexAt;
    var starts := Starts(job.times, |job.times|);
    RunOfUpload(RangeExtraction.RangeName(job.start, job.end), job.times, job.records, k);
    index := if k == |starts| - 1 then IndexAt(job.times, |job.times|) else starts[k];
  }

  /** Two uploads of clean runs to one path are the same upload. */
  lemma {:induction false} SamePathSameUpload(jobs: seq<Job>, i: nat, k: nat, j: nat, l: nat)
    requires DistinctRanges(jobs) && i < |jobs| && j < |jobs| && k < |JobUploads(jobs[i])| && l < |JobUploads(jobs[j])|
    requires JobUploads(jobs[i])[k].path == JobUploads(jobs[j])[l].path
    ensures JobUploads(jobs[i])[k] == JobUploads(jobs[j])[l]
  {
    hide FileName, CleanUploads;
    var a := UploadIndex(jobs[i], k);
    var b := UploadIndex(jobs[j], l);
    FileNamesInjective(jobs[i].start, jobs[i].end, a, jobs[j].start, jobs[j].end, b);
    assert i == j;
    if k < l {
      PathsAreDistinct(RangeExtraction.RangeName(jobs[i].start, jobs[i].end), jobs[i].times, jobs[i].records, k, l);
    } else if l < k {
      PathsAreDistinct(RangeExtraction.RangeName(jobs[i].start, jobs[i].end), jobs[i].times, jobs[i].records, l, k);
    }
  }

  // Attempts

  /** A run of a job that stopped after so many uploads; `failures` says how often each flush is refused in it. */
  datatype Attempt = Attempt(job: nat, failures: Failures, stopped: nat)

  function UploadsOf(job: Job, failures: Failures): seq<Upload> {
    Batch(RangeExtraction.RangeName(job.start, job.end), job.times, job.records, failures).uploads
  }

  predicate IsAttempt(jobs: seq<Job>, a: Attempt) {
    a.job < |jobs| && a.stopped <= |UploadsOf(jobs[a.job], a.failures)|
  }

  /** An accepted upload and the attempt that made it. */
  datatype Logged = Logged(attempt: nat, upload: Upload)

  function OfAttempt(log: seq<Logged>, a: nat): seq<Upload> {
    if log == [] then []
    else
      var l := log[|log| - 1];
      OfAttempt(log[..|log| - 1], a) + (if l.attempt == a then [l.upload] else [])
  }

  /** The log interleaves the attempts' uploads. */
  ghost predicate IsLog(log: seq<Logged>, jobs: seq<Job>, attempts: seq<Attempt>) {
    && (forall a :: 0 <= a < |attempts| ==>
          IsAttempt(jobs, attempts[a]) && OfAttempt(log, a) == UploadsOf(jobs[attempts[a].job], attempts[a].failures)[..attempts[a].stopped])
    && (forall n :: 0 <= n < |log| ==> log[n].attempt < |attempts|)
  }

  function Uploads(log: seq<Logged>): (r: seq<Upload>)
    ensures |r| == |log|
  {
    seq(|log|, n requires 0 <= n < |log| => log[n].upload)
  }

  /** Which of its attempt's uploads a logged one is. */
  function Position(log: seq<Logged>, n: nat): nat
    requires n < |log|
  {
    |OfAttempt(log[..n], log[n].attempt)|
  }

  lemma {:induction false} PositionExactly(log: seq<Logged>, n: nat)
    requires n < |log|
    ensures Position(log, n) < |OfAttempt(log, log[n].attempt)|
    ensures OfAttempt(log, log[n].attempt)[Position(log, n)] == log[n].upload
  {
    if n < |log| - 1 {
      PositionExactly(log[..|log| - 1], n);
      assert log[..|log| - 1][..n] == log[..n];
    }
  }

  /** In the upload's attempt no intermediate flush was refused up to that upload. */
  predicate NothingRefusedBefore(log: seq<Logged>, jobs: seq<Job>, attempts: seq<Attempt>, n: nat)
    requires n < |log| && log[n].attempt < |attempts| && attempts[log[n].attempt].job < |jobs|
  {
    var a := attempts[log[n].attempt];
    NoneRefused(a.failures, Least(Position(log, n) + 1, Flushes(jobs[a.job].times)))
  }

  /** The last logged upload at a path. */
  predicate IsLastAt(log: seq<Logged>, n: nat, p: Path) {
    n < |log| && log[n].upload.path == p && forall m :: n < m < |log| ==> log[m].upload.path != p
  }

  /** The path was written, and the last time by an upload before which its attempt met no refusal. */
  ghost predicate LastIsClean(log: seq<Logged>, jobs: seq<Job>, attempts: seq<Attempt>, p: Path)
    requires IsLog(log, jobs, attempts)
  {
    exists n: nat :: IsLastAt(log, n, p) && NothingRefusedBefore(log, jobs, attempts, n)
  }

  /** That holds for every path of every job. */
  ghost predicate LastsAreClean(log: seq<Logged>, jobs: seq<Job>, attempts: seq<Attempt>)
    requires AllTimed(jobs) && IsLog(log, jobs, attempts)
  {
    forall i, k :: 0 <= i < |jobs| && 0 <= k < |JobUploads(jobs[i])| ==>
      LastIsClean(log, jobs, attempts, JobUploads(jobs[i])[k].path)
  }

  /** Every logged upload goes to a path of its job, and carries that path's content when nothing was refused before it. */
  lemma {:induction false} LoggedLikeClean(log: seq<Logged>, jobs: seq<Job>, attempts: seq<Attempt>, n: nat)
    requires AllTimed(jobs) && IsLog(log, jobs, attempts) && n < |log|
    ensures
      var clean := JobUploads(jobs[attempts[log[n].attempt].job]);
      && Position(log, n) < |clean|
      && log[n].upload.path == clean[Position(log, n)].path
      && (NothingRefusedBefore(log, jobs, attempts, n) ==> log[n].upload == clean[Position(log, n)])
      && (Distinct(jobs[attempts[log[n].attempt].job].records) && log[n].upload.content == clean[Position(log, n)].content ==>
            NothingRefusedBefore(log, jobs, attempts, n))
  {
    hide Batch, CleanUploads, Flushes, NoneRefused, OfAttempt, Distinct;
    var a := attempts[log[n].attempt];
    var job, k := jobs[a.job], Position(log, n);
    PositionExactly(log, n);
    UploadsLikeClean(RangeExtraction.RangeName(job.start, job.end), job.times, job.records, a.failures);
    assert IsLikeClean(UploadsOf(job, a.failures)[k], JobUploads(job)[k], a.failures, k, Flushes(job.times),
                       Distinct(job.records));
  }

  lemma {:induction false} StoreLast(objects: map<Path, string>, log: seq<Logged>, n: nat, p: Path)
    requires IsLastAt(log, n, p)
    ensures p in Store(objects, Uploads(log)) && Store(objects, Uploads(log))[p] == log[n].upload.content
  {
    var init := log[..|log| - 1];
    assert Uploads(log)[..|log| - 1] == Uploads(init);
    if n < |log| - 1 {
      StoreLast(objects, init, n, p);
    }
  }

  lemma {:induction false} StoreUntouched(objects: map<Path, string>, uploads: seq<Upload>, p: Path)
    requires forall n :: 0 <= n < |uploads| ==> uploads[n].path != p
    ensures p in Store(objects, uploads) <==> p in objects
    ensures p in objects ==> Store(objects, uploads)[p] == objects[p]
  {
    if uploads != [] {
      StoreUntouched(objects, uploads[..|uploads| - 1], p);
    }
  }

  // Clean runs

  ghost predicate DistinctPaths(uploads: seq<Upload>) {
    forall m, n :: 0 <= m < n < |uploads| ==> uploads[m].path != uploads[n].path
  }

  lemma {:induction false} CleanPathsAreDistinct(job: Job)
    requires |job.times| == |job.records|
    ensures DistinctPaths(JobUploads(job))
  {
    hide CleanUploads;
    forall m, n | 0 <= m < n < |JobUploads(job)| ensures JobUploads(job)[m].path != JobUploads(job)[n].path {
      PathsAreDistinct(RangeExtraction.RangeName(job.start, job.end), job.times, job.records, m, n);
    }
  }

  /** No two files of any of the ranges share a path. */
  lemma {:induction false} RunPathsAreDistinct(jobs: seq<Job>)
    requires DistinctRanges(jobs)
    ensures DistinctPaths(CleanRuns(jobs))
  {
    hide JobUploads;
    if jobs != [] {
      var i := |jobs| - 1;
      var before, own := CleanRuns(jobs[..i]), JobUploads(jobs[i]);
      RunPathsAreDistinct(jobs[..i]);
      CleanPathsAreDistinct(jobs[i]);
      forall m, n | 0 <= m < |before| && 0 <= n < |own| ensures before[m].path != own[n].path {
        InCleanRuns(jobs[..i], before[m]);
        var j :| 0 <= j < i && before[m] in JobUploads(jobs[..i][j]);
        var l :| 0 <= l < |JobUploads(jobs[j])| && JobUploads(jobs[j])[l] == before[m];
        OtherRangeOtherPath(jobs, j, l, i, n);
      }
    }
  }

  lemma {:induction false} OtherRangeOtherPath(jobs: seq<Job>, i: nat, k: nat, j: nat, l: nat)
    requires DistinctRanges(jobs) && i < |jobs| && j < |jobs| && k < |JobUploads(jobs[i])| && l < |JobUploads(jobs[j])|
    requires i != j
    ensures JobUploads(jobs[i])[k].path != JobUploads(jobs[j])[l].path
  {
    hide FileName, CleanUploads;
    if JobUploads(jobs[i])[k].path == JobUploads(jobs[j])[l].path {
      var a := UploadIndex(jobs[i], k);
      var b := UploadIndex(jobs[j], l);
      FileNamesInjective(jobs[i].start, jobs[i].end, a, jobs[j].start, jobs[j].end, b);
    }
  }

  lemma {:induction false} StoreDistinct(objects: map<Path, string>, uploads: seq<Upload>, k: nat)
    requires DistinctPaths(uploads) && k < |uploads|
    ensures uploads[k].path in Store(objects, uploads) && Store(objects, uploads)[uploads[k].path] == uploads[k].content
  {
    var n := |uploads| - 1;
    if k < n {
      StoreDistinct(objects, uploads[..n], k);
    }
  }

  lemma {:induction false} CleanRunsStore(objects: map<Path, string>, jobs: seq<Job>, i: nat, k: nat)
    requires DistinctRanges(jobs) && i < |jobs| && k < |JobUploads(jobs[i])|
    ensures
      var u := JobUploads(jobs[i])[k];
      u.path in Store(objects, CleanRuns(jobs)) && Store(objects, CleanRuns(jobs))[u.path] == u.content
  {
    hide JobUploads, Store, CleanRuns;
    var u := JobUploads(jobs[i])[k];
    RunPathsAreDistinct(jobs);
    InCleanRuns(jobs, u);
    var n :| 0 <= n < |CleanRuns(jobs)| && CleanRuns(jobs)[n] == u;
    StoreDistinct(objects, CleanRuns(jobs), n);
  }

  /** Main result: attempts may be refused, crash, repeat and interleave; the bucket is as after running every range once
      without a refusal, as soon as the last upload at every path comes before any refusal of its attempt. */
  lemma {:induction false} AttemptsLeaveCleanBucket(objects: map<Path, string>, log: seq<Logged>, jobs: seq<Job>,
                                                    attempts: seq<Attempt>)
    requires DistinctRanges(jobs) && IsLog(log, jobs, attempts) && LastsAreClean(log, jobs, attempts)
    ensures Store(objects, Uploads(log)) == Store(objects, CleanRuns(jobs))
  {
    hide JobUploads, Store, CleanRuns, Position, NothingRefusedBefore, OfAttempt, UploadsOf;
    var a, b := Store(objects, Uploads(log)), Store(objects, CleanRuns(jobs));
    forall p ensures p in a <==> p in b ensures p in a ==> a[p] == b[p] {
      if i, k :| 0 <= i < |jobs| && 0 <= k < |JobUploads(jobs[i])| && JobUploads(jobs[i])[k].path == p {
        assert LastIsClean(log, jobs, attempts, p);
        var n: nat :| IsLastAt(log, n, p) && NothingRefusedBefore(log, jobs, attempts, n);
        LoggedLikeClean(log, jobs, attempts, n);
        SamePathSameUpload(jobs, i, k, attempts[log[n].attempt].job, Position(log, n));
        StoreLast(objects, log, n, p);
        CleanRunsStore(objects, jobs, i, k);
      } else {
        forall n | 0 <= n < |log| ensures Uploads(log)[n].path != p {
          LoggedLikeClean(log, jobs, attempts, n);
        }
        forall n | 0 <= n < |CleanRuns(jobs)| ensures CleanRuns(jobs)[n].path != p {
          InCleanRuns(jobs, CleanRuns(jobs)[n]);
        }
        StoreUntouched(objects, Uploads(log), p);
        StoreUntouched(objects, CleanRuns(jobs), p);
      }
    }
  }

  predicate AllDistinct(jobs: seq<Job>) {
    forall i :: 0 <= i < |jobs| ==> Distinct(jobs[i].records)
  }

  /** A bucket that was empty, and records of which no two of one range are alike: then the condition is exact. */
  lemma {:induction false} CleanBucketExactly(log: seq<Logged>, jobs: seq<Job>, attempts: seq<Attempt>)
    requires DistinctRanges(jobs) && IsLog(log, jobs, attempts) && AllDistinct(jobs)
    ensures Store(map[], Uploads(log)) == Store(map[], CleanRuns(jobs)) <==> LastsAreClean(log, jobs, attempts)
  {
    hide JobUploads, Store, CleanRuns, Position, NothingRefusedBefore, OfAttempt, UploadsOf, Distinct;
    if LastsAreClean(log, jobs, attempts) {
      AttemptsLeaveCleanBucket(map[], log, jobs, attempts);
    }
    if Store(map[], Uploads(log)) == Store(map[], CleanRuns(jobs)) {
      forall i, k | 0 <= i < |jobs| && 0 <= k < |JobUploads(jobs[i])|
        ensures LastIsClean(log, jobs, attempts, JobUploads(jobs[i])[k].path)
      {
        var p := JobUploads(jobs[i])[k].path;
        CleanRunsStore(map[], jobs, i, k);
        var m := WrittenAt(log, p);
        var n := LastAt(log, m);
        StoreLast(map[], log, n, p);
        LoggedLikeClean(log, jobs, attempts, n);
        SamePathSameUpload(jobs, i, k, attempts[log[n].attempt].job, Position(log, n));
        assert NothingRefusedBefore(log, jobs, attempts, n);
      }
    }
  }

  lemma {:induction false} WrittenAt(log: seq<Logged>, p: Path) returns (m: nat)
    requires p in Store(map[], Uploads(log))
    ensures m < |log| && log[m].upload.path == p
  {
    hide Store;
    if forall n :: 0 <= n < |log| ==> log[n].upload.path != p {
      StoreUntouched(map[], Uploads(log), p);
    }
    m :| 0 <= m < |log| && log[m].upload.path == p;
  }

  /** No intermediate flush of the attempt is refused. */
  predicate NeverRefused(jobs: seq<Job>, a: Attempt) {
    a.job < |jobs| && NoneRefused(a.failures, Flushes(jobs[a.job].times))
  }

  /** Every job has an attempt that got through. */
  ghost predicate AllGotThrough(jobs: seq<Job>, attempts: seq<Attempt>)
    requires AllTimed(jobs)
  {
    forall i :: 0 <= i < |jobs| ==> exists a :: 0 <= a < |attempts| && attempts[a].job == i && attempts[a].stopped == |JobUploads(jobs[i])|
  }

  lemma {:induction false} LastAt(log: seq<Logged>, m: nat) returns (n: nat)
    requires m < |log|
    ensures IsLastAt(log, n, log[m].upload.path)
    decreases |log| - m
  {
    if k :| m < k < |log| && log[k].upload.path == log[m].upload.path {
      n := LastAt(log, k);
    } else {
      n := m;
    }
  }

  lemma {:induction false} LoggedFrom(log: seq<Logged>, a: nat, k: nat) returns (n: nat)
    requires k < |OfAttempt(log, a)|
    ensures n < |log| && log[n].attempt == a && log[n].upload == OfAttempt(log, a)[k]
  {
    var init := log[..|log| - 1];
    if k < |OfAttempt(init, a)| {
      n := LoggedFrom(init, a, k);
    } else {
      n := |log| - 1;
    }
  }

  /** Attempts without refusals, of which every range has one that got through, need no condition on their order. */
  lemma {:induction false} UnrefusedAttemptsSuffice(log: seq<Logged>, jobs: seq<Job>, attempts: seq<Attempt>)
    requires DistinctRanges(jobs) && IsLog(log, jobs, attempts) && AllGotThrough(jobs, attempts)
    requires forall a :: 0 <= a < |attempts| ==> NeverRefused(jobs, attempts[a])
    ensures LastsAreClean(log, jobs, attempts)
  {
    hide Batch, CleanUploads, Flushes, OfAttempt;
    forall i, k | 0 <= i < |jobs| && 0 <= k < |JobUploads(jobs[i])|
      ensures LastIsClean(log, jobs, attempts, JobUploads(jobs[i])[k].path)
    {
      var a :| 0 <= a < |attempts| && attempts[a].job == i && attempts[a].stopped == |JobUploads(jobs[i])|;
      var m := LoggedFrom(log, a, k);
      UploadsLikeClean(RangeExtraction.RangeName(jobs[i].start, jobs[i].end), jobs[i].times, jobs[i].records, attempts[a].failures);
      assert IsLikeClean(UploadsOf(jobs[i], attempts[a].failures)[k], JobUploads(jobs[i])[k], attempts[a].failures, k,
                         Flushes(jobs[i].times), Distinct(jobs[i].records));
      assert log[m].upload.path == JobUploads(jobs[i])[k].path;
      var n := LastAt(log, m);
      assert NeverRefused(jobs, attempts[log[n].attempt]);
      assert NothingRefusedBefore(log, jobs, attempts, n);
    }
  }

  // The hourly load

  /** The listing names every object of the bucket once, in any order. */
  ghost predicate Lists(listing: seq<Path>, objects: map<Path, string>) {
    && (forall m, n :: 0 <= m < n < |listing| ==> listing[m] != listing[n])
    && (forall p :: p in listing <==> p in objects)
  }

  function HourLines(objects: map<Path, string>, p: Path, day: int, hour: nat): seq<string>
    requires p in objects
  {
    if InHour(p.dir, day, hour) then LinesOf(objects[p]) else []
  }

  /** The lines of the listed objects that the loader's two globs match. */
  function LoadListed(objects: map<Path, string>, listing: seq<Path>, day: int, hour: nat): seq<string>
    requires forall n :: 0 <= n < |listing| ==> listing[n] in objects
  {
    if listing == [] then []
    else
      LoadListed(objects, listing[..|listing| - 1], day, hour) + HourLines(objects, listing[|listing| - 1], day, hour)
  }

  lemma {:induction false} LoadAppend(objects: map<Path, string>, a: seq<Path>, b: seq<Path>, day: int, hour: nat)
    requires forall p :: p in a || p in b ==> p in objects
    ensures LoadListed(objects, a + b, day, hour) == LoadListed(objects, a, day, hour) + LoadListed(objects, b, day, hour)
  {
    hide HourLines;
    if b == [] {
      assert a + b == a;
    } else {
      var n := |b| - 1;
      LoadAppend(objects, a, b[..n], day, hour);
      assert (a + b)[..|a + b| - 1] == a + b[..n];
    }
  }

  lemma {:induction false} LoadOne(objects: map<Path, string>, p: Path, day: int, hour: nat)
    requires p in objects
    ensures LoadListed(objects, [p], day, hour) == HourLines(objects, p, day, hour)
  {
    hide HourLines;
    assert [p][..0] == [];
    assert LoadListed(objects, [], day, hour) == [];
  }

  lemma {:induction false} LoadWithout(objects: map<Path, string>, listing: seq<Path>, j: nat, day: int, hour: nat)
    requires j < |listing| && forall p :: p in listing ==> p in objects
    ensures forall p :: p in listing[..j] + listing[j + 1..] ==> p in objects
    ensures multiset(LoadListed(objects, listing, day, hour))
         == multiset(LoadListed(objects, listing[..j] + listing[j + 1..], day, hour)) + multiset(HourLines(objects, listing[j], day, hour))
  {
    hide HourLines, LoadListed;
    var a, x, b := listing[..j], [listing[j]], listing[j + 1..];
    assert listing == (a + x) + b;
    LoadAppend(objects, a + x, b, day, hour);
    LoadAppend(objects, a, x, day, hour);
    LoadOne(objects, listing[j], day, hour);
    LoadAppend(objects, a, b, day, hour);
  }

  lemma {:induction false} FirstIsListed(b: seq<Path>)
    requires b != []
    ensures b[0] in b
  {
  }

  /** The order of a listing makes no difference to what is loaded. */
  lemma {:induction false} ListingOrderFree(objects: map<Path, string>, a: seq<Path>, b: seq<Path>, day: int, hour: nat)
    requires forall p :: p in a ==> p in objects
    requires forall p :: p in a <==> p in b
    requires forall m, n :: 0 <= m < n < |a| ==> a[m] != a[n]
    requires forall m, n :: 0 <= m < n < |b| ==> b[m] != b[n]
    ensures multiset(LoadListed(objects, a, day, hour)) == multiset(LoadListed(objects, b, day, hour))
  {
    hide HourLines;
    if a == [] {
      if b != [] {
        FirstIsListed(b);
      }
    } else {
      var n := |a| - 1;
      assert a[n] in b;
      var j :| 0 <= j < |b| && b[j] == a[n];
      var rest := b[..j] + b[j + 1..];
      SameWithout(a, b, j);
      LoadWithout(objects, b, j, day, hour);
      ListingOrderFree(objects, a[..n], rest, day, hour);
    }
  }

  lemma {:induction false} SameWithout(a: seq<Path>, b: seq<Path>, j: nat)
    requires a != [] && j < |b| && b[j] == a[|a| - 1] && forall p :: p in a <==> p in b
    requires forall m, n :: 0 <= m < n < |a| ==> a[m] != a[n]
    requires forall m, n :: 0 <= m < n < |b| ==> b[m] != b[n]
    ensures
      var rest := b[..j] + b[j + 1..];
      && (forall p :: p in a[..|a| - 1] <==> p in rest)
      && (forall m, n :: 0 <= m < n < |rest| ==> rest[m] != rest[n])
  {
    var k := |a| - 1;
    var rest := b[..j] + b[j + 1..];
    forall p ensures p in a[..k] <==> p in rest {
      if p in a[..k] {
        var m :| 0 <= m < k && a[m] == p;
        assert a[m] in b;
        var l :| 0 <= l < |b| && b[l] == p;
        assert rest[if l < j then l else l - 1] == p;
      }
      if p in rest {
        var m :| 0 <= m < |rest| && rest[m] == p;
        assert b[if m < j then m else m + 1] == p;
        assert p in a;
      }
    }
  }

  function PathsOf(uploads: seq<Upload>): (r: seq<Path>)
    ensures |r| == |uploads|
  {
    seq(|uploads|, n requires 0 <= n < |uploads| => uploads[n].path)
  }

  lemma {:induction false} LoadOfUploads(objects: map<Path, string>, uploads: seq<Upload>, day: int, hour: nat)
    requires forall n :: 0 <= n < |uploads| ==> uploads[n].path in objects && objects[uploads[n].path] == uploads[n].content
    ensures LoadListed(objects, PathsOf(uploads), day, hour) == LoadHour(uploads, day, hour)
  {
    hide LinesOf, InHour;
    if uploads != [] {
      var n := |uploads| - 1;
      LoadOfUploads(objects, uploads[..n], day, hour);
      assert PathsOf(uploads)[..n] == PathsOf(uploads[..n]);
    }
  }

  lemma {:induction false} LoadHourAppend(a: seq<Upload>, b: seq<Upload>, day: int, hour: nat)
    ensures LoadHour(a + b, day, hour) == LoadHour(a, day, hour) + LoadHour(b, day, hour)
  {
    hide LinesOf, InHour;
    if b == [] {
      assert a + b == a;
    } else {
      var n := |b| - 1;
      LoadHourAppend(a, b[..n], day, hour);
      assert (a + b)[..|a + b| - 1] == a + b[..n];
    }
  }

  /** The records of all jobs whose time lies in the hour. */
  function RecordsInHour(jobs: seq<Job>, day: int, hour: nat): seq<string>
    requires AllTimed(jobs)
  {
    if jobs == [] then []
    else
      var job := jobs[|jobs| - 1];
      RecordsInHour(jobs[..|jobs| - 1], day, hour) + HourRecords(job.times, job.records, day, hour, |job.records|)
  }

  predicate AllJsonJobs(jobs: seq<Job>) {
    forall i :: 0 <= i < |jobs| ==> AllJson(jobs[i].records)
  }

  lemma {:induction false} LoadOfCleanRuns(jobs: seq<Job>, day: int, hour: nat)
    requires AllTimed(jobs) && AllJsonJobs(jobs) && hour < 24
    ensures LoadHour(CleanRuns(jobs), day, hour) == RecordsInHour(jobs, day, hour)
  {
    hide LoadHour, HourRecords, CleanUploads;
    if jobs == [] {
      assert LoadHour([], day, hour) == [] by {
        NothingLoaded(day, hour);
      }
    } else {
      var i := |jobs| - 1;
      LoadOfCleanRuns(jobs[..i], day, hour);
      LoadHourAppend(CleanRuns(jobs[..i]), JobUploads(jobs[i]), day, hour);
      CallLoadsItsHour(RangeExtraction.RangeName(jobs[i].start, jobs[i].end), jobs[i].times, jobs[i].records, day, hour);
    }
  }

  lemma {:induction false} NothingLoaded(day: int, hour: nat)
    ensures LoadHour([], day, hour) == []
  {
  }

  /** Main result: from the bucket that such attempts leave, the hourly loader's globs load exactly the records of that
      hour, each as often as the ranges hold it, whatever order the bucket is listed in. */
  lemma {:induction false} HourlyLoadIsExact(log: seq<Logged>, jobs: seq<Job>, attempts: seq<Attempt>, listing: seq<Path>,
                                             day: int, hour: nat)
    requires DistinctRanges(jobs) && AllJsonJobs(jobs) && hour < 24
    requires IsLog(log, jobs, attempts) && LastsAreClean(log, jobs, attempts)
    requires Lists(listing, Store(map[], Uploads(log)))
    ensures multiset(LoadListed(Store(map[], Uploads(log)), listing, day, hour)) == multiset(RecordsInHour(jobs, day, hour))
  {
    hide Store, CleanRuns, LoadListed, LoadHour, RecordsInHour, LastsAreClean, IsLog, AllJsonJobs;
    AttemptsLeaveCleanBucket(map[], log, jobs, attempts);
    var objects, clean := Store(map[], Uploads(log)), CleanRuns(jobs);
    RunPathsAreDistinct(jobs);
    forall n | 0 <= n < |clean| ensures clean[n].path in objects && objects[clean[n].path] == clean[n].content {
      StoreDistinct(map[], clean, n);
    }
    forall p ensures p in listing <==> p in PathsOf(clean) {
      if p in PathsOf(clean) {
        var n :| 0 <= n < |clean| && PathsOf(clean)[n] == p;
        assert clean[n].path in objects;
      } else {
        forall n | 0 <= n < |clean| ensures clean[n].path != p {
          assert PathsOf(clean)[n] in PathsOf(clean);
        }
        StoreUntouched(map[], clean, p);
      }
    }
    ListingOrderFree(objects, listing, PathsOf(clean), day, hour);
    LoadOfUploads(objects, clean, day, hour);
    LoadOfCleanRuns(jobs, day, hour);
  }
}
