/** What the half-hour batcher promises: conservation, placement, collision-free paths. */
module BatchingLaws {
  import opened Wrappers
  import opened Text
  import opened Sequences
  import opened Tables
  import opened Batching
  import RangeExtraction

  // Maximal runs of one half hour

  /** Where the runs of equal directories start among the first i times. */
  function Starts(times: seq<UnixTimestamp>, i: nat): (r: seq<nat>)
    requires i <= |times|
    ensures i > 0 ==> r != [] && r[0] == 0
    ensures forall k :: 0 <= k < |r| ==> r[k] < i
    ensures forall j, k :: 0 <= j < k < |r| ==> r[j] < r[k]
  {
    if i == 0 then []
    else Starts(times, i - 1) + (if i == 1 || DirOf(times[i - 1]) != DirOf(times[i - 2]) then [i - 1] else [])
  }

  /** Where run k of the first i times ends. */
  function EndOf(starts: seq<nat>, i: nat, k: nat): nat
    requires k < |starts|
  {
    if k + 1 < |starts| then starts[k + 1] else i
  }

  /** A run lies in one half hour. */
  lemma {:induction false} RunSharesDir(times: seq<UnixTimestamp>, i: nat, k: nat, j: nat)
    requires i <= |times| && k < |Starts(times, i)| && Starts(times, i)[k] <= j < EndOf(Starts(times, i), i, k)
    ensures DirOf(times[j]) == DirOf(times[Starts(times, i)[k]])
  {
    hide DirOf;
    if k < |Starts(times, i - 1)| {
      if j < i - 1 {
        RunSharesDir(times, i - 1, k, j);
      } else {
        RunSharesDir(times, i - 1, k, i - 2);
      }
    }
  }

  /** Neighbouring runs lie in different half hours. */
  lemma {:induction false} NeighboursDiffer(times: seq<UnixTimestamp>, i: nat, k: nat)
    requires i <= |times| && k + 1 < |Starts(times, i)|
    ensures DirOf(times[Starts(times, i)[k]]) != DirOf(times[Starts(times, i)[k + 1]])
  {
    hide DirOf;
    if k + 1 < |Starts(times, i - 1)| {
      NeighboursDiffer(times, i - 1, k);
    } else {
      RunSharesDir(times, i - 1, k, i - 2);
    }
  }

  /** The index in the file name after i times: stale when the last of them starts a new run. */
  function IndexAt(times: seq<UnixTimestamp>, i: nat): nat
    requires 0 < i <= |times|
  {
    var starts := Starts(times, i);
    if |starts| > 1 && starts[|starts| - 1] == i - 1 then starts[|starts| - 2] else starts[|starts| - 1]
  }

  function RunUpload(name: string, times: seq<UnixTimestamp>, records: seq<string>, lo: nat, hi: nat, index: nat): Upload
    requires lo < hi <= |times| == |records|
  {
    Upload(Path(DirOf(times[lo]), FileName(name, index)), Join(records[lo..hi], '\n'))
  }

  /** The uploads of every run but the last among the first i times. */
  function Flushed(name: string, times: seq<UnixTimestamp>, records: seq<string>, i: nat): (r: seq<Upload>)
    requires 0 < i <= |times| == |records|
    ensures |r| == |Starts(times, i)| - 1
  {
    var starts := Starts(times, i);
    seq(|starts| - 1, k requires 0 <= k < |starts| - 1 => RunUpload(name, times, records, starts[k], starts[k + 1], starts[k]))
  }

  /** What a call uploads when no intermediate upload is refused. */
  function CleanUploads(name: string, times: seq<UnixTimestamp>, records: seq<string>): (r: seq<Upload>)
    requires |times| == |records|
    ensures |r| == |Starts(times, |times|)|
  {
    if times == [] then []
    else
      var starts := Starts(times, |times|);
      Flushed(name, times, records, |times|)
      + [RunUpload(name, times, records, starts[|starts| - 1], |times|, IndexAt(times, |times|))]
  }

  /** How many intermediate flushes a call makes. */
  function Flushes(times: seq<UnixTimestamp>): nat {
    if times == [] then 0 else |Starts(times, |times|)| - 1
  }

  predicate NoneRefused(failures: Failures, n: nat) {
    forall k :: 0 <= k < n ==> failures(k) == 0
  }

  predicate AllParseable(times: seq<UnixTimestamp>) {
    forall i :: 0 <= i < |times| ==> Parseable(times[i])
  }

  /** The loop's variables after i times, in closed form. */
  lemma {:induction false} LoopInClosedForm(name: string, times: seq<UnixTimestamp>, records: seq<string>, failures: Failures,
                                            i: nat)
    requires 0 < i <= |times| == |records| && AllParseable(times) && NoneRefused(failures, |Starts(times, i)| - 1)
    ensures Loop(name, times, records, failures, i) == Running(StateAfter(name, times, records, i))
  {
    hide DirOf, FileName, Join;
    if i == 1 {
      assert Loop(name, times, records, failures, 0) == Running(State(None, 0, 0, records, []));
      assert records[0..] == records && Flushed(name, times, records, 1) == [];
    } else {
      LoopInClosedForm(name, times, records, failures, i - 1);
      LoopStep(name, times, records, failures, i);
    }
  }

  function StateAfter(name: string, times: seq<UnixTimestamp>, records: seq<string>, i: nat): State
    requires 0 < i <= |times| == |records|
  {
    var starts := Starts(times, i);
    State(Some(DirOf(times[i - 1])), starts[|starts| - 1], IndexAt(times, i), records[starts[|starts| - 1]..],
          Flushed(name, times, records, i))
  }

  lemma {:induction false} FlushedSame(name: string, times: seq<UnixTimestamp>, records: seq<string>, i: nat)
    requires 1 < i <= |times| == |records| && DirOf(times[i - 1]) == DirOf(times[i - 2])
    ensures Starts(times, i) == Starts(times, i - 1)
    ensures Flushed(name, times, records, i) == Flushed(name, times, records, i - 1)
  {
    hide DirOf, RunUpload;
    assert Starts(times, i) == Starts(times, i - 1);
  }

  lemma {:induction false} FlushedOneMore(name: string, times: seq<UnixTimestamp>, records: seq<string>, i: nat)
    requires 1 < i <= |times| == |records| && DirOf(times[i - 1]) != DirOf(times[i - 2])
    ensures
      var before := Starts(times, i - 1);
      var prev := before[|before| - 1];
      && Starts(times, i) == before + [i - 1]
      && Flushed(name, times, records, i) ==
         Flushed(name, times, records, i - 1) + [RunUpload(name, times, records, prev, i - 1, prev)]
  {
    hide DirOf, RunUpload;
    assert Starts(times, i) == Starts(times, i - 1) + [i - 1];
  }

  lemma {:induction false} TakeOff(records: seq<string>, lo: nat, hi: nat)
    requires lo <= hi <= |records|
    ensures Drain(records[lo..], hi - lo, 0) == Some(Drained(records[lo..hi], records[hi..]))
  {
    assert records[lo..][..hi - lo] == records[lo..hi];
    assert records[lo..][hi - lo..] == records[hi..];
  }

  lemma {:induction false} LoopStep(name: string, times: seq<UnixTimestamp>, records: seq<string>, failures: Failures, i: nat)
    requires 1 < i <= |times| == |records| && Parseable(times[i - 1]) && NoneRefused(failures, |Starts(times, i)| - 1)
    ensures Iterate(StateAfter(name, times, records, i - 1), name, i - 1, times[i - 1], failures)
      == Running(StateAfter(name, times, records, i))
  {
    hide DirOf, FileName, Join, Parseable, Flushed, Drain;
    var before := Starts(times, i - 1);
    var prev := before[|before| - 1];
    if DirOf(times[i - 1]) == DirOf(times[i - 2]) {
      FlushedSame(name, times, records, i);
    } else {
      FlushedOneMore(name, times, records, i);
      RunSharesDir(times, i - 1, |before| - 1, i - 2);
      TakeOff(records, prev, i - 1);
      assert failures(|before| - 1) == 0;
    }
  }

  /** With no intermediate upload refused, a call uploads one file for each run, in order. */
  lemma {:induction false} CleanCallUploadsRuns(name: string, times: seq<UnixTimestamp>, records: seq<string>, failures: Failures)
    requires |times| == |records| && AllParseable(times) && NoneRefused(failures, Flushes(times))
    ensures Batch(name, times, records, failures) == Outcome(Success(()), CleanUploads(name, times, records))
  {
    hide DirOf, FileName, Join, Flushed, Loop, IndexAt, AllParseable;
    if times != [] {
      LoopInClosedForm(name, times, records, failures, |times|);
      var starts := Starts(times, |times|);
      RunSharesDir(times, |times|, |starts| - 1, |times| - 1);
      assert records[starts[|starts| - 1]..] == records[starts[|starts| - 1]..|times|];
    }
  }

  // Conservation

  /** A JSON text: not empty, and no raw newline (RFC 8259, section 7). */
  predicate IsJson(s: string) {
    s != "" && '\n' !in s
  }

  predicate AllJson(records: seq<string>) {
    forall i :: 0 <= i < |records| ==> IsJson(records[i])
  }

  /** The records of a newline-delimited file. */
  function LinesOf(content: string): seq<string> {
    if content == "" then [] else Split(content, '\n')
  }

  lemma {:induction false} LinesOfJoin(batch: seq<string>)
    requires AllJson(batch)
    ensures LinesOf(Join(batch, '\n')) == batch
  {
    if batch != [] {
      SplitJoin(batch, '\n');
      assert batch[0] != "";
    }
  }

  function Lines(uploads: seq<Upload>): (r: seq<seq<string>>)
    ensures |r| == |uploads|
  {
    seq(|uploads|, k requires 0 <= k < |uploads| => LinesOf(uploads[k].content))
  }

  /** The records read back from the files in upload order. */
  function AllLines(uploads: seq<Upload>): seq<string> {
    Concat(Lines(uploads))
  }

  lemma {:induction false} AllLinesPush(uploads: seq<Upload>, u: Upload)
    ensures AllLines(uploads + [u]) == AllLines(uploads) + LinesOf(u.content)
  {
    assert Lines(uploads + [u]) == Lines(uploads) + [LinesOf(u.content)];
    ConcatAppend(Lines(uploads), [LinesOf(u.content)]);
    ConcatOne(LinesOf(u.content));
  }

  /** Draining takes strings off the front: exactly the batch when nothing was refused, more otherwise. */
  lemma {:induction false} DrainKeepsOnlyTheBatch(rest: seq<string>, n: nat, failures: nat)
    requires n > 0 && AllJson(rest) && Drain(rest, n, failures).Some?
    ensures
      var d := Drain(rest, n, failures).value;
      && AllJson(d.batch) && AllJson(d.rest)
      && |d.batch| + |d.rest| <= |rest|
      && (failures == 0 ==> d.batch + d.rest == rest)
      && (failures > 0 ==> |d.batch| + |d.rest| < |rest|)
  {
    if failures > 0 {
      DrainKeepsOnlyTheBatch(rest[n..], n, failures - 1);
    }
  }

  /** Whatever is refused, a running loop has uploaded a part of the records and holds no more than the others. */
  ghost predicate Accounts(s: State, records: seq<string>, failures: Failures) {
    && AllJson(s.rest)
    && |AllLines(s.uploads)| + |s.rest| <= |records|
    && (NoneRefused(failures, |s.uploads|) ==> AllLines(s.uploads) + s.rest == records)
    && (!NoneRefused(failures, |s.uploads|) ==> |AllLines(s.uploads)| + |s.rest| < |records|)
  }

  lemma {:induction false} LoopAccounts(name: string, times: seq<UnixTimestamp>, records: seq<string>, failures: Failures, i: nat)
    requires i <= |times| == |records| && AllJson(records)
    requires Loop(name, times, records, failures, i).Running?
    ensures Accounts(Loop(name, times, records, failures, i).state, records, failures)
    ensures i > 0 ==> |Loop(name, times, records, failures, i).state.uploads| == |Starts(times, i)| - 1
    ensures i > 0 ==> Loop(name, times, records, failures, i).state.dir == Some(DirOf(times[i - 1]))
  {
    hide DirOf, FileName, Join, Drain, Accounts, AllJson, Parseable;
    if i == 0 {
      NothingUploaded(records, failures);
    } else {
      LoopAccounts(name, times, records, failures, i - 1);
      var s := Loop(name, times, records, failures, i - 1).state;
      var d := DirOf(times[i - 1]);
      if s.dir.None? || s.dir == Some(d) {
        SameAccounts(s, s.(dir := Some(d), index := s.prev), records, failures);
      } else {
        FlushAccounts(s, records, failures, Path(s.dir.value, FileName(name, s.prev)), i - 1 - s.prev);
        SameAccounts(State(None, 0, 0, Drain(s.rest, i - 1 - s.prev, failures(|s.uploads|)).value.rest,
                           s.uploads + [Upload(Path(s.dir.value, FileName(name, s.prev)),
                                               Join(Drain(s.rest, i - 1 - s.prev, failures(|s.uploads|)).value.batch, '\n'))]),
                     Loop(name, times, records, failures, i).state, records, failures);
      }
    }
  }

  lemma {:induction false} NothingUploaded(records: seq<string>, failures: Failures)
    requires AllJson(records)
    ensures Accounts(State(None, 0, 0, records, []), records, failures)
  {
    assert Lines([]) == [];
    assert [] + records == records;
  }

  lemma {:induction false} SameAccounts(s: State, t: State, records: seq<string>, failures: Failures)
    requires Accounts(s, records, failures) && s.rest == t.rest && s.uploads == t.uploads
    ensures Accounts(t, records, failures)
  {
  }

  lemma {:induction false} FlushAccounts(s: State, records: seq<string>, failures: Failures, path: Path, n: nat)
    requires n > 0 && Accounts(s, records, failures) && Drain(s.rest, n, failures(|s.uploads|)).Some?
    ensures
      var d := Drain(s.rest, n, failures(|s.uploads|)).value;
      Accounts(State(None, 0, 0, d.rest, s.uploads + [Upload(path, Join(d.batch, '\n'))]), records, failures)
  {
    hide Drain, Join, AllJson, AllLines;
    var k := |s.uploads|;
    var d := Drain(s.rest, n, failures(k)).value;
    DrainKeepsOnlyTheBatch(s.rest, n, failures(k));
    LinesOfJoin(d.batch);
    AllLinesPush(s.uploads, Upload(path, Join(d.batch, '\n')));
    assert NoneRefused(failures, k + 1) <==> NoneRefused(failures, k) && failures(k) == 0;
    if NoneRefused(failures, k + 1) {
      assert (AllLines(s.uploads) + d.batch) + d.rest == AllLines(s.uploads) + (d.batch + d.rest);
    }
  }

  /** The files give back the record list exactly when no intermediate upload is refused, for any refusals at the end. */
  lemma {:induction false} ConservesExactly(name: string, times: seq<UnixTimestamp>, records: seq<string>, failures: Failures)
    requires |times| == |records| && AllParseable(times) && AllJson(records)
    ensures Batch(name, times, records, failures).result.Success? && AllLines(Batch(name, times, records, failures).uploads) == records
      <==> NoneRefused(failures, Flushes(times))
  {
    hide Loop, Join, FileName, DirOf, AllLines, AllJson, Starts;
    if times == [] {
      assert Lines([]) == [];
      NoUploads();
    } else {
      if NoneRefused(failures, Flushes(times)) {
        CleanCallUploadsRuns(name, times, records, failures);
      }
      var end := Loop(name, times, records, failures, |times|);
      if end.Running? {
        LoopAccounts(name, times, records, failures, |times|);
        LinesOfJoin(end.state.rest);
        AllLinesPush(end.state.uploads, Upload(Path(end.state.dir.value, FileName(name, end.state.index)), Join(end.state.rest, '\n')));
      }
    }
  }

  lemma {:induction false} NoUploads()
    ensures AllLines([]) == []
  {
    assert Lines([]) == [];
  }

  // What is uploaded, whatever is refused

  lemma {:induction false} DrainTakesOff(rest: seq<string>, n: nat, failures: nat)
    requires AllJson(rest) && Drain(rest, n, failures).Some?
    ensures
      var d := Drain(rest, n, failures).value;
      AllJson(d.batch) && AllJson(d.rest) && multiset(d.batch) + multiset(d.rest) <= multiset(rest)
  {
    assert rest == rest[..n] + rest[n..];
    if failures > 0 {
      DrainTakesOff(rest[n..], n, failures - 1);
    }
  }

  /** A loop that runs has uploaded some of the records and holds some of the others; one that panicked has uploaded some. */
  ghost predicate UploadsOnly(p: Progress, records: seq<string>) {
    match p
    case Running(s) => AllJson(s.rest) && multiset(AllLines(s.uploads)) + multiset(s.rest) <= multiset(records)
    case Panicked(_, done) => multiset(AllLines(done)) <= multiset(records)
  }

  lemma {:induction false} IterateUploadsOnly(s: State, name: string, i: nat, t: UnixTimestamp, failures: Failures,
                                              records: seq<string>)
    requires s.prev <= i && UploadsOnly(Running(s), records)
    ensures UploadsOnly(Iterate(s, name, i, t, failures), records)
  {
    hide DirOf, FileName, Join, Drain, AllJson, Parseable, AllLines;
    if Parseable(t) && s.dir.Some? && s.dir != Some(DirOf(t)) && Drain(s.rest, i - s.prev, failures(|s.uploads|)).Some? {
      var d := Drain(s.rest, i - s.prev, failures(|s.uploads|)).value;
      DrainTakesOff(s.rest, i - s.prev, failures(|s.uploads|));
      LinesOfJoin(d.batch);
      AllLinesPush(s.uploads, Upload(Path(s.dir.value, FileName(name, s.prev)), Join(d.batch, '\n')));
    }
  }

  lemma {:induction false} LoopUploadsOnly(name: string, times: seq<UnixTimestamp>, records: seq<string>, failures: Failures,
                                           i: nat)
    requires i <= |times| && AllJson(records)
    ensures UploadsOnly(Loop(name, times, records, failures, i), records)
  {
    hide Iterate, AllJson, AllLines;
    if i == 0 {
      NoUploads();
    } else {
      LoopUploadsOnly(name, times, records, failures, i - 1);
      var p := Loop(name, times, records, failures, i - 1);
      if p.Running? {
        IterateUploadsOnly(p.state, name, i - 1, times[i - 1], failures, records);
      }
    }
  }

  /** Whatever is refused, and also when the call panics, the files hold only records of the list, none too often. */
  lemma {:induction false} UploadedAreRecords(name: string, times: seq<UnixTimestamp>, records: seq<string>, failures: Failures)
    requires AllJson(records)
    ensures multiset(AllLines(Batch(name, times, records, failures).uploads)) <= multiset(records)
  {
    hide Loop, Join, FileName, AllLines, AllJson;
    NoUploads();
    if |times| == |records| && times != [] {
      LoopUploadsOnly(name, times, records, failures, |times|);
      var p := Loop(name, times, records, failures, |times|);
      if p.Running? {
        LinesOfJoin(p.state.rest);
        AllLinesPush(p.state.uploads, Upload(Path(p.state.dir.value, FileName(name, p.state.index)), Join(p.state.rest, '\n')));
      }
    }
  }

  lemma {:induction false} RunningParses(name: string, times: seq<UnixTimestamp>, records: seq<string>, failures: Failures, i: nat)
    requires i <= |times| && Loop(name, times, records, failures, i).Running?
    ensures AllParseable(times[..i])
  {
    hide Parseable, Drain, DirOf, FileName, Join;
    if i > 0 {
      RunningParses(name, times, records, failures, i - 1);
      assert times[..i] == times[..i - 1] + [times[i - 1]];
    }
  }

  /** A call that returns has uploaded every record if and only if none of its intermediate flushes was refused. */
  lemma {:induction false} UploadsAllExactly(name: string, times: seq<UnixTimestamp>, records: seq<string>, failures: Failures)
    requires AllJson(records) && Batch(name, times, records, failures).result.Success?
    ensures multiset(AllLines(Batch(name, times, records, failures).uploads)) == multiset(records)
      <==> NoneRefused(failures, Flushes(times))
  {
    hide Loop, Join, FileName, DirOf, AllLines, AllJson, Starts, NoneRefused, Parseable;
    if times == [] {
      NoUploads();
      NoFlushes(failures);
    } else {
      var end := Loop(name, times, records, failures, |times|);
      RunningParses(name, times, records, failures, |times|);
      assert times[..|times|] == times;
      ConservesExactly(name, times, records, failures);
      if !NoneRefused(failures, Flushes(times)) {
        LoopAccounts(name, times, records, failures, |times|);
        LinesOfJoin(end.state.rest);
        AllLinesPush(end.state.uploads, Upload(Path(end.state.dir.value, FileName(name, end.state.index)), Join(end.state.rest, '\n')));
        assert |multiset(AllLines(Batch(name, times, records, failures).uploads))| < |multiset(records)|;
      }
    }
  }

  lemma {:induction false} NoFlushes(failures: Failures)
    ensures NoneRefused(failures, 0)
  {
  }

  // Placement

  lemma {:induction false} RunOfUpload(name: string, times: seq<UnixTimestamp>, records: seq<string>, k: nat)
    requires |times| == |records| && k < |CleanUploads(name, times, records)|
    ensures
      var u, starts := CleanUploads(name, times, records)[k], Starts(times, |times|);
      && u.path.dir == DirOf(times[starts[k]])
      && u.path.file == FileName(name, if k < |starts| - 1 then starts[k] else IndexAt(times, |times|))
      && u.content == Join(records[starts[k]..EndOf(starts, |times|, k)], '\n')
  {
    hide DirOf, FileName, Join, Starts, IndexAt;
  }

  /** Every record lies in the file of its run, whose directory is the half hour of the record's time. */
  lemma {:induction false} PlacedInItsHalfHour(name: string, times: seq<UnixTimestamp>, records: seq<string>, k: nat, i: nat)
    requires |times| == |records| && AllJson(records) && k < |CleanUploads(name, times, records)|
    requires Starts(times, |times|)[k] <= i < EndOf(Starts(times, |times|), |times|, k)
    ensures
      var u, lo := CleanUploads(name, times, records)[k], Starts(times, |times|)[k];
      && u.path.dir == DirOf(times[i]) && DirNumber(u.path.dir) == times[i].seconds / 1800
      && |LinesOf(u.content)| == EndOf(Starts(times, |times|), |times|, k) - lo
      && LinesOf(u.content)[i - lo] == records[i]
  {
    hide DirOf, FileName, Join, DirNumber, LinesOf, Starts, CleanUploads, IndexAt;
    var starts := Starts(times, |times|);
    var lo, hi := starts[k], EndOf(starts, |times|, k);
    RunSharesDir(times, |times|, k, i);
    DirNumbersHalfHour(times[i]);
    RunOfUpload(name, times, records, k);
    LinesOfJoin(records[lo..hi]);
  }

  /** The hour two half-hour directories make up. */
  predicate InHour(d: Dir, day: int, hour: nat) {
    d.day == day && d.hour == hour
  }

  lemma {:induction false} InHourExactly(t: UnixTimestamp, day: int, hour: nat)
    requires hour < 24
    ensures InHour(DirOf(t), day, hour) <==> t.seconds / 3600 == day * 24 + hour
  {
    var d, s := t.seconds / SECONDS_PER_DAY, t.seconds % SECONDS_PER_DAY;
    assert t.seconds == 3600 * (24 * d + s / 3600) + s % 3600;
    assert t.seconds / 3600 == 24 * d + s / 3600;
  }

  /** The lines of the files the hourly loader's two globs match. */
  function LoadHour(uploads: seq<Upload>, day: int, hour: nat): seq<string> {
    if uploads == [] then []
    else
      var u := uploads[|uploads| - 1];
      LoadHour(uploads[..|uploads| - 1], day, hour) + (if InHour(u.path.dir, day, hour) then LinesOf(u.content) else [])
  }

  /** The records among the first i whose time lies in the hour. */
  function HourRecords(times: seq<UnixTimestamp>, records: seq<string>, day: int, hour: nat, i: nat): seq<string>
    requires i <= |times| == |records|
  {
    if i == 0 then []
    else HourRecords(times, records, day, hour, i - 1)
         + (if times[i - 1].seconds / 3600 == day * 24 + hour then [records[i - 1]] else [])
  }

  lemma {:induction false} HourRecordsOfRun(times: seq<UnixTimestamp>, records: seq<string>, day: int, hour: nat, lo: nat, hi: nat)
    requires lo <= hi <= |times| == |records| && hour < 24
    requires forall j :: lo <= j < hi ==> DirOf(times[j]) == DirOf(times[lo])
    ensures HourRecords(times, records, day, hour, hi) == HourRecords(times, records, day, hour, lo)
      + (if lo < hi && InHour(DirOf(times[lo]), day, hour) then records[lo..hi] else [])
  {
    hide DirOf;
    if lo < hi {
      HourRecordsOfRun(times, records, day, hour, lo, hi - 1);
      InHourExactly(times[hi - 1], day, hour);
      assert DirOf(times[hi - 1]) == DirOf(times[lo]);
      assert records[lo..hi] == records[lo..hi - 1] + [records[hi - 1]];
    }
  }

  lemma {:induction false} NoHourRecords(times: seq<UnixTimestamp>, records: seq<string>, day: int, hour: nat)
    requires |times| == |records|
    ensures HourRecords(times, records, day, hour, 0) == []
  {
  }

  lemma {:induction false} LoadHourOfRuns(name: string, times: seq<UnixTimestamp>, records: seq<string>, day: int, hour: nat,
                                          k: nat)
    requires |times| == |records| && AllJson(records) && hour < 24 && k <= |CleanUploads(name, times, records)|
    ensures LoadHour(CleanUploads(name, times, records)[..k], day, hour) == HourRecords(times, records, day, hour,
      if k == 0 then 0 else EndOf(Starts(times, |times|), |times|, k - 1))
  {
    hide DirOf, FileName, Join, HourRecords, Starts, CleanUploads, LinesOf, InHour;
    if k == 0 {
      assert HourRecords(times, records, day, hour, 0) == [] by {
        NoHourRecords(times, records, day, hour);
      }
    } else {
      LoadHourOfRuns(name, times, records, day, hour, k - 1);
      var uploads, starts := CleanUploads(name, times, records), Starts(times, |times|);
      var lo, hi := starts[k - 1], EndOf(starts, |times|, k - 1);
      forall j | lo <= j < hi ensures DirOf(times[j]) == DirOf(times[lo]) {
        RunSharesDir(times, |times|, k - 1, j);
      }
      HourRecordsOfRun(times, records, day, hour, lo, hi);
      LinesOfJoin(records[lo..hi]);
      RunOfUpload(name, times, records, k - 1);
      assert uploads[..k][..k - 1] == uploads[..k - 1];
    }
  }

  /** Of one call's files the hourly loader's two globs pick exactly that hour's records, in order. */
  lemma {:induction false} CallLoadsItsHour(name: string, times: seq<UnixTimestamp>, records: seq<string>, day: int, hour: nat)
    requires |times| == |records| && AllJson(records) && hour < 24
    ensures LoadHour(CleanUploads(name, times, records), day, hour) == HourRecords(times, records, day, hour, |records|)
  {
    var uploads := CleanUploads(name, times, records);
    LoadHourOfRuns(name, times, records, day, hour, |uploads|);
    assert uploads[..|uploads|] == uploads;
  }

  // Uploads of calls with refused flushes

  /** The loop's variables after i times whatever was refused: all but the contents as without refusals, and the contents
      too as long as nothing was refused before. */
  ghost predicate Shaped(s: State, name: string, times: seq<UnixTimestamp>, records: seq<string>, failures: Failures, i: nat)
    requires 0 < i <= |times| == |records|
  {
    var t, n := StateAfter(name, times, records, i), |s.uploads|;
    && s.dir == t.dir && s.prev == t.prev && s.index == t.index
    && n == |t.uploads| && LikeClean(s.uploads, t.uploads, failures, n, Distinct(records))
    && IsRest(s.rest, records, t.prev, NoneRefused(failures, n))
  }

  /** Records that tell their files apart: JSON texts, no two alike. */
  predicate Distinct(records: seq<string>) {
    AllJson(records) && forall i, j :: 0 <= i < j < |records| ==> records[i] != records[j]
  }

  /** What is left are the last records: those from `prev` on if nothing was refused, and fewer otherwise. */
  predicate IsRest(rest: seq<string>, records: seq<string>, prev: nat, unrefused: bool) {
    && prev + |rest| <= |records| && rest == records[|records| - |rest|..]
    && (unrefused <==> prev + |rest| == |records|)
  }

  /** Upload k of a call goes to the path of the clean one, and is the clean one when none of the flushes up to it was
      refused; only then, when the records tell. */
  ghost predicate IsLikeClean(u: Upload, clean: Upload, failures: Failures, k: nat, flushes: nat, tell: bool) {
    && u.path == clean.path
    && (NoneRefused(failures, Least(k + 1, flushes)) ==> u == clean)
    && (tell && u.content == clean.content ==> NoneRefused(failures, Least(k + 1, flushes)))
  }

  function Least(a: nat, b: nat): nat {
    if a < b then a else b
  }

  ghost predicate LikeClean(uploads: seq<Upload>, clean: seq<Upload>, failures: Failures, flushes: nat, tell: bool) {
    |uploads| <= |clean| && forall k :: 0 <= k < |uploads| ==> IsLikeClean(uploads[k], clean[k], failures, k, flushes, tell)
  }

  lemma {:induction false} LikeCleanPush(uploads: seq<Upload>, clean: seq<Upload>, failures: Failures, u: Upload, c: Upload,
                                         tell: bool)
    requires LikeClean(uploads, clean, failures, |uploads|, tell) && |uploads| == |clean|
    requires IsLikeClean(u, c, failures, |uploads|, |uploads| + 1, tell)
    ensures LikeClean(uploads + [u], clean + [c], failures, |uploads| + 1, tell)
  {
    forall k | 0 <= k < |uploads| ensures IsLikeClean((uploads + [u])[k], (clean + [c])[k], failures, k, |uploads| + 1, tell) {
      assert IsLikeClean(uploads[k], clean[k], failures, k, |uploads|, tell);
    }
  }

  /** What a flush drains and leaves, as parts of the records. */
  lemma {:induction false} DrainIsPart(rest: seq<string>, records: seq<string>, n: nat, failures: nat)
    requires |rest| <= |records| && rest == records[|records| - |rest|..] && Drain(rest, n, failures).Some?
    ensures
      var d := Drain(rest, n, failures).value;
      && n + |d.rest| <= |rest| && d.rest == records[|records| - |d.rest|..]
      && d.batch == records[|records| - |d.rest| - n..|records| - |d.rest|]
      && (n > 0 ==> (failures == 0 <==> n + |d.rest| == |rest|))
  {
    if failures > 0 {
      DrainIsPart(rest[n..], records, n, failures - 1);
    }
  }

  /** Parts of distinct records that start at different places join to different texts. */
  lemma {:induction false} JoinsDiffer(records: seq<string>, lo: nat, lo': nat, n: nat)
    requires Distinct(records) && n > 0 && lo + n <= |records| && lo' + n <= |records| && lo != lo'
    ensures Join(records[lo..lo + n], '\n') != Join(records[lo'..lo' + n], '\n')
  {
    hide Join;
    LinesOfJoin(records[lo..lo + n]);
    LinesOfJoin(records[lo'..lo' + n]);
    assert records[lo..lo + n][0] == records[lo] && records[lo'..lo' + n][0] == records[lo'];
    assert records[lo] != records[lo'];
  }

  /** The flush of the records from prev up to hi, when some flush up to it may have been refused. */
  lemma {:induction false} FlushedLikeClean(rest: seq<string>, records: seq<string>, prev: nat, hi: nat, failures: Failures,
                                            k: nat, path: Path)
    requires prev < hi <= |records| && IsRest(rest, records, prev, NoneRefused(failures, k))
    requires Drain(rest, hi - prev, failures(k)).Some?
    ensures
      var d := Drain(rest, hi - prev, failures(k)).value;
      && IsRest(d.rest, records, hi, NoneRefused(failures, k + 1))
      && IsLikeClean(Upload(path, Join(d.batch, '\n')), Upload(path, Join(records[prev..hi], '\n')), failures, k, k + 1,
                     Distinct(records))
  {
    hide Join, Drain, NoneRefused, Distinct;
    var n := hi - prev;
    var d := Drain(rest, n, failures(k)).value;
    DrainIsPart(rest, records, n, failures(k));
    NoneRefusedUpTo(failures, k);
    var lo := |records| - |d.rest| - n;
    assert NoneRefused(failures, k + 1) <==> lo == prev;
    if lo != prev && Distinct(records) {
      JoinsDiffer(records, lo, prev, n);
    }
  }

  lemma {:induction false} ShapedSame(s: State, name: string, times: seq<UnixTimestamp>, records: seq<string>,
                                      failures: Failures, i: nat)
    requires 1 < i <= |times| == |records| && Shaped(s, name, times, records, failures, i - 1)
    requires DirOf(times[i - 1]) == DirOf(times[i - 2])
    ensures Shaped(s.(dir := Some(DirOf(times[i - 1])), index := s.prev), name, times, records, failures, i)
  {
    hide DirOf, Flushed, LikeClean, NoneRefused, IsRest, Distinct;
    FlushedSame(name, times, records, i);
  }

  /** Without refusals, a time of a new half hour ends the run before it. */
  lemma {:induction false} NewRun(name: string, times: seq<UnixTimestamp>, records: seq<string>, i: nat)
    requires 1 < i <= |times| == |records| && DirOf(times[i - 1]) != DirOf(times[i - 2])
    ensures
      var t, t' := StateAfter(name, times, records, i - 1), StateAfter(name, times, records, i);
      && t.dir == Some(DirOf(times[i - 2])) && t.prev < i - 1
      && t'.dir == Some(DirOf(times[i - 1])) && t'.prev == i - 1 && t'.index == t.prev
      && t'.uploads ==
         t.uploads + [Upload(Path(DirOf(times[i - 2]), FileName(name, t.prev)), Join(records[t.prev..i - 1], '\n'))]
  {
    hide DirOf, FileName, Join, Flushed;
    var before := Starts(times, i - 1);
    FlushedOneMore(name, times, records, i);
    RunSharesDir(times, i - 1, |before| - 1, i - 2);
  }

  lemma {:induction false} ShapedNew(s: State, name: string, times: seq<UnixTimestamp>, records: seq<string>,
                                     failures: Failures, i: nat)
    requires 1 < i <= |times| == |records| && Shaped(s, name, times, records, failures, i - 1)
    requires DirOf(times[i - 1]) != DirOf(times[i - 2])
    ensures s.dir == Some(DirOf(times[i - 2])) && s.prev < i - 1
    ensures Drain(s.rest, i - 1 - s.prev, failures(|s.uploads|)).Some? ==>
      var d := Drain(s.rest, i - 1 - s.prev, failures(|s.uploads|)).value;
      var u := Upload(Path(DirOf(times[i - 2]), FileName(name, s.prev)), Join(d.batch, '\n'));
      Shaped(State(Some(DirOf(times[i - 1])), i - 1, s.prev, d.rest, s.uploads + [u]), name, times, records, failures, i)
  {
    hide DirOf, FileName, Join, Drain, LikeClean, NoneRefused, IsRest, Distinct, IsLikeClean, StateAfter;
    NewRun(name, times, records, i);
    var t, n := StateAfter(name, times, records, i - 1), |s.uploads|;
    if Drain(s.rest, i - 1 - s.prev, failures(n)).Some? {
      var d := Drain(s.rest, i - 1 - s.prev, failures(n)).value;
      var path := Path(DirOf(times[i - 2]), FileName(name, s.prev));
      FlushedLikeClean(s.rest, records, s.prev, i - 1, failures, n, path);
      LikeCleanPush(s.uploads, t.uploads, failures, Upload(path, Join(d.batch, '\n')),
                    Upload(path, Join(records[s.prev..i - 1], '\n')), Distinct(records));
    }
  }

  lemma {:induction false} ShapedFlush(s: State, name: string, times: seq<UnixTimestamp>, records: seq<string>,
                                       failures: Failures, i: nat)
    requires 1 < i <= |times| == |records| && Shaped(s, name, times, records, failures, i - 1)
    requires Parseable(times[i - 1]) && Iterate(s, name, i - 1, times[i - 1], failures).Running?
    ensures Shaped(Iterate(s, name, i - 1, times[i - 1], failures).state, name, times, records, failures, i)
  {
    hide DirOf, FileName, Join, Parseable, Drain, Shaped;
    ShapedDir(s, name, times, records, failures, i - 1);
    if DirOf(times[i - 1]) == DirOf(times[i - 2]) {
      ShapedSame(s, name, times, records, failures, i);
    } else {
      ShapedNew(s, name, times, records, failures, i);
    }
  }

  lemma {:induction false} ShapedDir(s: State, name: string, times: seq<UnixTimestamp>, records: seq<string>,
                                     failures: Failures, i: nat)
    requires 0 < i <= |times| == |records| && Shaped(s, name, times, records, failures, i)
    ensures s.dir == Some(DirOf(times[i - 1])) && s.prev < i
  {
    hide DirOf, Flushed, LikeClean, IsRest, Distinct;
  }

  lemma {:induction false} NoneRefusedUpTo(failures: Failures, n: nat)
    ensures NoneRefused(failures, n + 1) <==> NoneRefused(failures, n) && failures(n) == 0
  {
  }

  lemma {:induction false} ShapedFirst(s: State, name: string, times: seq<UnixTimestamp>, records: seq<string>, failures: Failures)
    requires 0 < |times| == |records| && s == State(Some(DirOf(times[0])), 0, 0, records, [])
    ensures Shaped(s, name, times, records, failures, 1)
  {
    hide DirOf, Distinct;
    assert records[0..] == records && Flushed(name, times, records, 1) == [];
  }

  function DoneBy(p: Progress): seq<Upload> {
    if p.Running? then p.state.uploads else p.done
  }

  lemma {:induction false} LoopShaped(name: string, times: seq<UnixTimestamp>, records: seq<string>, failures: Failures, i: nat)
    requires 0 < i <= |times| == |records|
    ensures Loop(name, times, records, failures, i).Running? ==>
      Shaped(Loop(name, times, records, failures, i).state, name, times, records, failures, i)
    ensures LikeClean(DoneBy(Loop(name, times, records, failures, i)), Flushed(name, times, records, i), failures,
                      |Flushed(name, times, records, i)|, Distinct(records))
  {
    hide DirOf, FileName, Join, Parseable, Shaped, Flushed, LikeClean, Iterate;
    if i == 1 {
      LoopStarts(name, times, records, failures);
      FirstIteration(name, times, records, failures);
    } else {
      LoopShaped(name, times, records, failures, i - 1);
      var p := Loop(name, times, records, failures, i - 1);
      if p.Running? {
        IterateShaped(p.state, name, times, records, failures, i);
      } else {
        MoreFlushed(name, times, records, failures, i, p.done);
      }
    }
  }

  lemma {:induction false} FirstIteration(name: string, times: seq<UnixTimestamp>, records: seq<string>, failures: Failures)
    requires 0 < |times| == |records|
    ensures
      var p := Iterate(State(None, 0, 0, records, []), name, 0, times[0], failures);
      && (p.Running? ==> Shaped(p.state, name, times, records, failures, 1))
      && LikeClean(DoneBy(p), Flushed(name, times, records, 1), failures, |Flushed(name, times, records, 1)|, Distinct(records))
  {
    hide DirOf, Shaped, Parseable;
    ShapedFirst(State(Some(DirOf(times[0])), 0, 0, records, []), name, times, records, failures);
  }

  lemma {:induction false} IterateShaped(s: State, name: string, times: seq<UnixTimestamp>, records: seq<string>,
                                         failures: Failures, i: nat)
    requires 1 < i <= |times| == |records| && Shaped(s, name, times, records, failures, i - 1)
    ensures
      var p := Iterate(s, name, i - 1, times[i - 1], failures);
      && (p.Running? ==> Shaped(p.state, name, times, records, failures, i))
      && LikeClean(DoneBy(p), Flushed(name, times, records, i), failures, |Flushed(name, times, records, i)|, Distinct(records))
  {
    hide DirOf, FileName, Join, Parseable, Flushed, Drain, LikeClean, NoneRefused;
    var p := Iterate(s, name, i - 1, times[i - 1], failures);
    if p.Running? {
      ShapedFlush(s, name, times, records, failures, i);
    } else {
      MoreFlushed(name, times, records, failures, i, p.done);
    }
  }

  lemma {:induction false} MoreFlushed(name: string, times: seq<UnixTimestamp>, records: seq<string>, failures: Failures,
                                       i: nat, done: seq<Upload>)
    requires 1 < i <= |times| == |records|
    requires LikeClean(done, Flushed(name, times, records, i - 1), failures, |Flushed(name, times, records, i - 1)|, Distinct(records))
    ensures LikeClean(done, Flushed(name, times, records, i), failures, |Flushed(name, times, records, i)|, Distinct(records))
  {
    hide DirOf, FileName, Join, Flushed;
    var before := Flushed(name, times, records, i - 1);
    if DirOf(times[i - 1]) == DirOf(times[i - 2]) {
      FlushedSame(name, times, records, i);
    } else {
      FlushedOneMore(name, times, records, i);
      forall k | 0 <= k < |done| ensures IsLikeClean(done[k], Flushed(name, times, records, i)[k], failures, k, |before| + 1, Distinct(records)) {
        assert IsLikeClean(done[k], before[k], failures, k, |before|, Distinct(records));
      }
    }
  }

  /** Whatever is refused, and wherever a call ends: its k-th upload goes to the path of the k-th run, and it is that run's
      file when no intermediate flush up to it was refused, and only then when the records are distinct. */
  lemma {:induction false} UploadsLikeClean(name: string, times: seq<UnixTimestamp>, records: seq<string>, failures: Failures)
    requires |times| == |records|
    ensures LikeClean(Batch(name, times, records, failures).uploads, CleanUploads(name, times, records), failures, Flushes(times),
                      Distinct(records))
  {
    hide DirOf, FileName, Join, Loop, LikeClean, IndexAt, Flushed, NoneRefused, IsRest, Distinct, IsLikeClean;
    if times == [] {
      NothingLikeClean(CleanUploads(name, times, records), failures, Flushes(times), Distinct(records));
    } else {
      LoopShaped(name, times, records, failures, |times|);
      var p := Loop(name, times, records, failures, |times|);
      var starts, flushed := Starts(times, |times|), Flushed(name, times, records, |times|);
      var last := RunUpload(name, times, records, starts[|starts| - 1], |times|, IndexAt(times, |times|));
      if p.Running? {
        RunSharesDir(times, |times|, |starts| - 1, |times| - 1);
        var u := Upload(Path(p.state.dir.value, FileName(name, p.state.index)), Join(p.state.rest, '\n'));
        RestLikeClean(p.state.rest, records, starts[|starts| - 1], failures, |flushed|, u.path);
        LikeCleanLast(p.state.uploads, flushed, failures, u, last, Distinct(records));
      } else {
        LikeCleanPrefix(p.done, flushed, failures, last, Distinct(records));
      }
    }
  }

  lemma {:induction false} RestLikeClean(rest: seq<string>, records: seq<string>, prev: nat, failures: Failures, k: nat, path: Path)
    requires prev < |records| && IsRest(rest, records, prev, NoneRefused(failures, k))
    ensures IsLikeClean(Upload(path, Join(rest, '\n')), Upload(path, Join(records[prev..|records|], '\n')), failures, k, k,
                        Distinct(records))
  {
    hide Join, NoneRefused;
    if NoneRefused(failures, k) {
      assert rest == records[prev..|records|];
    } else if Distinct(records) {
      LinesOfJoin(rest);
      LinesOfJoin(records[prev..|records|]);
    }
  }

  lemma {:induction false} NothingLikeClean(clean: seq<Upload>, failures: Failures, flushes: nat, tell: bool)
    ensures LikeClean([], clean, failures, flushes, tell)
  {
  }

  lemma {:induction false} LikeCleanLast(uploads: seq<Upload>, clean: seq<Upload>, failures: Failures, u: Upload, c: Upload,
                                         tell: bool)
    requires LikeClean(uploads, clean, failures, |clean|, tell) && |uploads| == |clean|
    requires IsLikeClean(u, c, failures, |clean|, |clean|, tell)
    ensures LikeClean(uploads + [u], clean + [c], failures, |clean|, tell)
  {
    forall k | 0 <= k < |uploads| ensures IsLikeClean((uploads + [u])[k], (clean + [c])[k], failures, k, |clean|, tell) {
      assert IsLikeClean(uploads[k], clean[k], failures, k, |clean|, tell);
    }
  }

  lemma {:induction false} LikeCleanPrefix(uploads: seq<Upload>, clean: seq<Upload>, failures: Failures, c: Upload, tell: bool)
    requires LikeClean(uploads, clean, failures, |clean|, tell)
    ensures LikeClean(uploads, clean + [c], failures, |clean|, tell)
  {
    forall k | 0 <= k < |uploads| ensures IsLikeClean(uploads[k], (clean + [c])[k], failures, k, |clean|, tell) {
      assert IsLikeClean(uploads[k], clean[k], failures, k, |clean|, tell);
    }
  }

  // Paths

  lemma {:induction false} SuffixAfterIndex(a: nat, b: nat)
    requires Decimal(a) + ".jsonl" == Decimal(b) + ".jsonl"
    ensures a == b
  {
    DecimalPrefixFree(a, b, ".jsonl", ".jsonl");
  }

  lemma {:induction false} FileIndexInjective(name: string, a: nat, b: nat)
    requires FileName(name, a) == FileName(name, b)
    ensures a == b
  {
    assert FileName(name, a)[|name| + 1..] == Decimal(a) + ".jsonl";
    assert FileName(name, b)[|name| + 1..] == Decimal(b) + ".jsonl";
    SuffixAfterIndex(a, b);
  }

  /** No two files of a call share a path, whatever order the times come in and despite the stale last index. */
  lemma {:induction false} PathsAreDistinct(name: string, times: seq<UnixTimestamp>, records: seq<string>, j: nat, k: nat)
    requires |times| == |records| && j < k < |CleanUploads(name, times, records)|
    ensures CleanUploads(name, times, records)[j].path != CleanUploads(name, times, records)[k].path
  {
    hide DirOf, FileName, Join, Starts, CleanUploads;
    var uploads, starts := CleanUploads(name, times, records), Starts(times, |times|);
    RunOfUpload(name, times, records, j);
    RunOfUpload(name, times, records, k);
    if uploads[j].path == uploads[k].path {
      FileIndexInjective(name, starts[j], if k < |starts| - 1 then starts[k] else IndexAt(times, |times|));
      assert k == |starts| - 1 && j == k - 1;
      NeighboursDiffer(times, |times|, j);
    }
  }

  lemma {:induction false} AfterName(start: nat, end: nat, index: nat)
    ensures FileName(RangeExtraction.RangeName(start, end), index)
         == Decimal(start) + ("_" + (Decimal(end) + ("_" + (Decimal(index) + ".jsonl"))))
  {
    FlatName(Decimal(start), "_", Decimal(end), "_", Decimal(index), ".jsonl");
  }

  lemma {:induction false} FlatName(a: string, b: string, c: string, d: string, e: string, f: string)
    ensures (a + b + c) + d + e + f == a + (b + (c + (d + (e + f))))
  {
  }

  lemma {:induction false} TailAfterUnderscore(a: string, b: string)
    requires "_" + a == "_" + b
    ensures a == b
  {
    assert ("_" + a)[1..] == a && ("_" + b)[1..] == b;
  }

  /** A file name tells its range and its index: files of different ranges never collide. */
  lemma {:induction false} FileNamesInjective(start: nat, end: nat, index: nat, start': nat, end': nat, index': nat)
    requires FileName(RangeExtraction.RangeName(start, end), index) == FileName(RangeExtraction.RangeName(start', end'), index')
    ensures start == start' && end == end' && index == index'
  {
    AfterName(start, end, index);
    AfterName(start', end', index');
    hide *;
    var k3, l3 := Decimal(index) + ".jsonl", Decimal(index') + ".jsonl";
    var k2, l2 := Decimal(end) + ("_" + k3), Decimal(end') + ("_" + l3);
    UnderscoreStops(k2);
    UnderscoreStops(l2);
    DecimalPrefixFree(start, start', "_" + k2, "_" + l2);
    TailAfterUnderscore(k2, l2);
    UnderscoreStops(k3);
    UnderscoreStops(l3);
    DecimalPrefixFree(end, end', "_" + k3, "_" + l3);
    TailAfterUnderscore(k3, l3);
    SuffixAfterIndex(index, index');
  }

  lemma {:induction false} UnderscoreStops(k: string)
    ensures ("_" + k)[0] == '_' && !IsDigit(("_" + k)[0])
  {
  }
}
