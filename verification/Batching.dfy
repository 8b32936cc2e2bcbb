/** The half-hour file batcher behind one table's bucket (output/gcs.rs `publish_batch`). */
module Batching {
  import opened Wrappers
  import opened Text
  import opened Tables

  // Directories

  /** `date/hour/0` or `date/hour/30`; the date is its day number since 1970-01-01. */
  datatype Dir = Dir(day: int, hour: nat, half: nat)

  const SECONDS_PER_DAY := 86400

  /** The directory computed from a UTC time's date, hour and minute. */
  function DirOf(t: UnixTimestamp): Dir {
    var secondOfDay := t.seconds % SECONDS_PER_DAY;
    var minute := secondOfDay / 60 % 60;
    Dir(t.seconds / SECONDS_PER_DAY, secondOfDay / 3600, if minute < 30 then 0 else 30)
  }

  /** Half hours since 1970, rounded down, also before 1970. */
  function HalfHour(t: UnixTimestamp): int {
    t.seconds / 1800
  }

  /** The number of the half hour a directory stands for. */
  function DirNumber(d: Dir): int {
    d.day * 48 + d.hour * 2 + d.half / 30
  }

  lemma {:induction false} DirNumbersHalfHour(t: UnixTimestamp)
    ensures DirNumber(DirOf(t)) == HalfHour(t)
    ensures DirOf(t).hour < 24 && (DirOf(t).half == 0 || DirOf(t).half == 30)
  {
    var day, s := t.seconds / SECONDS_PER_DAY, t.seconds % SECONDS_PER_DAY;
    var hour, r := s / 3600, s % 3600;
    MinuteOfHour(hour, r);
    assert s == 3600 * hour + r;
    HalfHoursAdd(day, hour, r);
    assert t.seconds == 86400 * day + (3600 * hour + r);
  }

  lemma {:induction false} MinuteOfHour(hour: nat, r: nat)
    requires r < 3600
    ensures (3600 * hour + r) / 60 % 60 == r / 60
  {
    assert (3600 * hour + r) / 60 == 60 * hour + r / 60;
  }

  lemma {:induction false} HalfHoursAdd(day: int, hour: nat, r: nat)
    requires r < 3600
    ensures (86400 * day + (3600 * hour + r)) / 1800 == 48 * day + 2 * hour + (if r / 60 < 30 then 0 else 1)
  {
    assert 86400 * day + (3600 * hour + r) == 1800 * (48 * day + 2 * hour) + r;
  }

  /** Two times share a directory exactly when they lie in the same half hour. */
  lemma {:induction false} SameDirExactly(t: UnixTimestamp, u: UnixTimestamp)
    ensures DirOf(t) == DirOf(u) <==> HalfHour(t) == HalfHour(u)
  {
    DirNumbersHalfHour(t);
    DirNumbersHalfHour(u);
    var d, e := DirOf(t), DirOf(u);
    assert DirNumber(d) == DirNumber(e) ==> d.day == e.day;
  }

  // chrono turns a time into a UTC date only in this range

  const MIN_UTC_SECONDS := -8334601228800
  const MAX_UTC_SECONDS := 8210266876799

  predicate Parseable(t: UnixTimestamp) {
    MIN_UTC_SECONDS <= t.seconds <= MAX_UTC_SECONDS && ValidNanos(t)
  }

  /** The first second of a year, by the Gregorian calendar. */
  function YearStarts(year: int): int {
    86400 * (365 * (year - 1970) + LeapDaysBefore(year) - LeapDaysBefore(1970))
  }

  function LeapDaysBefore(year: int): int {
    (year - 1) / 4 - (year - 1) / 100 + (year - 1) / 400
  }

  /** The bounds are those of whole years: chrono's last and first, and the years from 1900 to 9999 for texts. */
  lemma {:induction false} BoundsAreYears()
    ensures MIN_UTC_SECONDS == YearStarts(-262143) && MAX_UTC_SECONDS + 1 == YearStarts(262143)
    ensures BIGQUERY_MIN_SECONDS == YearStarts(1900) && BIGQUERY_MAX_SECONDS + 1 == YearStarts(10000)
  {
  }

  /** A time with a text that is not clamped is one that chrono turns into a date, so the batcher takes it. */
  lemma {:induction false} EncodedTimesParse(t: UnixTimestamp)
    requires EncodeTime(t).Success? && t.seconds < YearStarts(10000)
    ensures Parseable(t)
  {
  }

  /** The batcher takes exactly the times of chrono's whole years whose nanoseconds lie in a second, or in a minute's leap second. */
  lemma {:induction false} ParseableExactly(t: UnixTimestamp)
    ensures Parseable(t) <==>
      && YearStarts(-262143) <= t.seconds < YearStarts(262143)
      && t.nanos < (if t.seconds % 60 == 59 then 2000000000 else 1000000000)
  {
    BoundsAreYears();
  }

  // Uploads

  /** An object of the bucket: its directory and its file name. */
  datatype Path = Path(dir: Dir, file: string)

  datatype Upload = Upload(path: Path, content: string)

  function FileName(name: string, index: nat): string {
    name + "_" + Decimal(index) + ".jsonl"
  }

  datatype Panic = LengthMismatch | BadTimestamp | DrainPastEnd

  /** What an intermediate flush leaves: the last batch drained, and the strings after it. */
  datatype Drained = Drained(batch: seq<string>, rest: seq<string>)

  /** The retry loop drains n strings on every attempt; after `failures` failed attempts the next one uploads. */
  function Drain(rest: seq<string>, n: nat, failures: nat): Option<Drained> {
    if n > |rest| then None
    else if failures == 0 then Some(Drained(rest[..n], rest[n..]))
    else Drain(rest[n..], n, failures - 1)
  }

  /** How often the k-th flush fails before it succeeds. */
  type Failures = nat -> nat

  datatype State = State(dir: Option<Dir>, prev: nat, index: nat, rest: seq<string>, uploads: seq<Upload>)

  /** The loop's variables after the first i timestamps, or the panic that ended it, with what was uploaded by then. */
  datatype Progress = Running(state: State) | Panicked(panic: Panic, done: seq<Upload>)

  /** One iteration of the loop over timestamps. */
  function Iterate(s: State, name: string, i: nat, t: UnixTimestamp, failures: Failures): Progress
    requires s.prev <= i
  {
    if !Parseable(t) then Panicked(BadTimestamp, s.uploads)
    else
      var d := DirOf(t);
      if s.dir.None? || s.dir == Some(d) then Running(s.(dir := Some(d), index := s.prev))
      else
        match Drain(s.rest, i - s.prev, failures(|s.uploads|))
        case None => Panicked(DrainPastEnd, s.uploads)
        case Some(drained) =>
          var upload := Upload(Path(s.dir.value, FileName(name, s.prev)), Join(drained.batch, '\n'));
          Running(State(Some(d), i, s.prev, drained.rest, s.uploads + [upload]))
  }

  function Loop(name: string, times: seq<UnixTimestamp>, records: seq<string>, failures: Failures, i: nat): (p: Progress)
    requires i <= |times|
    ensures p.Running? ==> p.state.prev <= i && (i > 0 ==> p.state.dir.Some? && p.state.prev < i)
  {
    if i == 0 then Running(State(None, 0, 0, records, []))
    else
      match Loop(name, times, records, failures, i - 1)
      case Panicked(e, done) => Panicked(e, done)
      case Running(s) => Iterate(s, name, i - 1, times[i - 1], failures)
  }

  /** What a call returns, and everything it uploads, in upload order. */
  datatype Outcome = Outcome(result: Result<(), Panic>, uploads: seq<Upload>)

  /** The final flush uploads what is left under the last file name. */
  function Finish(name: string, p: Progress): Outcome
    requires p.Running? ==> p.state.dir.Some?
  {
    match p
    case Panicked(e, done) => Outcome(Failure(e), done)
    case Running(s) =>
      Outcome(Success(()), s.uploads + [Upload(Path(s.dir.value, FileName(name, s.index)), Join(s.rest, '\n'))])
  }

  function Batch(name: string, times: seq<UnixTimestamp>, records: seq<string>, failures: Failures): Outcome {
    if |times| != |records| then Outcome(Failure(LengthMismatch), [])
    else if times == [] then Outcome(Success(()), [])
    else Finish(name, Loop(name, times, records, failures, |times|))
  }

  lemma {:induction false} LoopStarts(name: string, times: seq<UnixTimestamp>, records: seq<string>, failures: Failures)
    ensures Loop(name, times, records, failures, 0) == Running(State(None, 0, 0, records, []))
  {
  }

  /** One iteration from a running state; a panic there ends the loop. */
  lemma {:induction false} LoopUnfolds(name: string, times: seq<UnixTimestamp>, records: seq<string>, failures: Failures,
                                       s: State, i: nat)
    requires i < |times| && Loop(name, times, records, failures, i) == Running(s)
    ensures Iterate(s, name, i, times[i], failures).Running? ==>
      Loop(name, times, records, failures, i + 1) == Iterate(s, name, i, times[i], failures)
    ensures Iterate(s, name, i, times[i], failures).Panicked? ==>
      Loop(name, times, records, failures, |times|) == Iterate(s, name, i, times[i], failures)
  {
    hide Iterate;
    LoopPanicStays(name, times, records, failures, i + 1);
  }

  /** A bucket and the uploads it has accepted. */
  class Bucket {
    var accepted: seq<Upload>

    constructor ()
      ensures accepted == []
    {
      accepted := [];
    }

    method UploadObject(path: Path, content: string)
      modifies this
      ensures accepted == old(accepted) + [Upload(path, content)]
    {
      accepted := accepted + [Upload(path, content)];
    }

    /** The intermediate flush's loop: every attempt drains n strings, the first that is not refused uploads them. */
    method FlushDraining(path: Path, strings: seq<string>, n: nat, failures: nat) returns (rest: Option<seq<string>>)
      modifies this
      ensures Drain(strings, n, failures).None? ==> rest.None? && accepted == old(accepted)
      ensures Drain(strings, n, failures).Some? ==>
        var drained := Drain(strings, n, failures).value;
        rest == Some(drained.rest) && accepted == old(accepted) + [Upload(path, Join(drained.batch, '\n'))]
    {
      var left := strings;
      var attempt := 0;
      while true
        invariant attempt <= failures && accepted == old(accepted)
        invariant Drain(left, n, failures - attempt) == Drain(strings, n, failures)
        decreases failures - attempt
      {
        if n > |left| {
          return None;
        }
        var batch := left[..n];
        left := left[n..];
        if attempt == failures {
          UploadObject(path, Join(batch, '\n'));
          return Some(left);
        }
        attempt := attempt + 1;
      }
    }

    /** The final flush's loop: the content is fixed before it, so failed attempts change nothing. */
    method FlushLast(path: Path, content: string, failures: nat)
      modifies this
      ensures accepted == old(accepted) + [Upload(path, content)]
    {
      var attempt := 0;
      while attempt < failures
        invariant attempt <= failures && accepted == old(accepted)
      {
        attempt := attempt + 1;
      }
      UploadObject(path, content);
    }

    /** `publish_batch`. */
    method PublishBatch(name: string, times: seq<UnixTimestamp>, records: seq<string>, failures: Failures)
      returns (r: Result<(), Panic>)
      modifies this
      ensures r == Batch(name, times, records, failures).result
      ensures accepted == old(accepted) + Batch(name, times, records, failures).uploads
    {
      hide Drain, Join, FileName, DirOf, Parseable, Loop;
      LoopStarts(name, times, records, failures);
      if |times| != |records| {
        return Failure(LengthMismatch);
      }
      if times == [] {
        return Success(());
      }
      var strings := records;
      var curDir: Option<Dir> := None;
      var prev := 0;
      var index := 0;
      var flushes := 0;
      ghost var uploads: seq<Upload> := [];
      for i := 0 to |times|
        invariant prev <= i && flushes == |uploads| && accepted == old(accepted) + uploads
        invariant Loop(name, times, records, failures, i) == Running(State(curDir, prev, index, strings, uploads))
      {
        LoopUnfolds(name, times, records, failures, State(curDir, prev, index, strings, uploads), i);
        index := prev;
        if !Parseable(times[i]) {
          return Failure(BadTimestamp);
        }
        var dir := DirOf(times[i]);
        if curDir.Some? && curDir != Some(dir) {
          var rest := FlushDraining(Path(curDir.value, FileName(name, prev)), strings, i - prev, failures(flushes));
          if rest.None? {
            return Failure(DrainPastEnd);
          }
          ghost var batch := Drain(strings, i - prev, failures(|uploads|)).value.batch;
          uploads := uploads + [Upload(Path(curDir.value, FileName(name, prev)), Join(batch, '\n'))];
          flushes := flushes + 1;
          strings := rest.value;
          prev := i;
        }
        curDir := Some(dir);
      }
      FlushLast(Path(curDir.value, FileName(name, index)), Join(strings, '\n'), failures(flushes));
      return Success(());
    }
  }

  lemma {:induction false} LoopPanicStays(name: string, times: seq<UnixTimestamp>, records: seq<string>, failures: Failures, i: nat)
    requires i <= |times|
    ensures Loop(name, times, records, failures, i).Panicked? ==>
      Loop(name, times, records, failures, |times|) == Loop(name, times, records, failures, i)
    decreases |times| - i
  {
    hide Iterate;
    if i < |times| {
      LoopPanicStays(name, times, records, failures, i + 1);
    }
  }
}
