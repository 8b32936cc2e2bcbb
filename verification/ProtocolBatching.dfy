/** The file batcher as the protocol's publish step: which rows of a table's publish land, and when all do
    (output/gcs.rs `publish_batch` below aptos_config/mod.rs `extract_range`). */
module ProtocolBatching {
  import opened Wrappers
  import opened Tables
  import opened RangeExtraction
  import opened Coordinator
  import opened Batching
  import opened BatchingLaws
  import opened Protocol

  /** How a row is serialised. */
  type Json = Row -> string

  /** Every row becomes a JSON text of its own. */
  ghost predicate Serialises(json: Json) {
    && (forall r :: IsJson(json(r)))
    && (forall r, s :: json(r) == json(s) ==> r == s)
  }

  function Texts(json: Json, rows: seq<Row>): (r: seq<string>)
    ensures |r| == |rows| && forall i :: 0 <= i < |rows| ==> r[i] == json(rows[i])
  {
    seq(|rows|, i requires 0 <= i < |rows| => json(rows[i]))
  }

  lemma {:induction false} TextsCount(json: Json, rows: seq<Row>, r: Row)
    requires Serialises(json)
    ensures multiset(Texts(json, rows))[json(r)] == multiset(rows)[r]
  {
    if rows != [] {
      var n := |rows| - 1;
      TextsCount(json, rows[..n], r);
      assert rows == rows[..n] + [rows[n]];
      assert Texts(json, rows) == Texts(json, rows[..n]) + [json(rows[n])];
    }
  }

  /** Lines that are texts of a list's rows are the texts of some rows. */
  lemma {:induction false} LinesAreTexts(json: Json, rows: seq<Row>, lines: seq<string>) returns (landed: seq<Row>)
    requires multiset(lines) <= multiset(Texts(json, rows))
    ensures Texts(json, landed) == lines
  {
    if lines == [] {
      landed := [];
    } else {
      var n := |lines| - 1;
      assert lines == lines[..n] + [lines[n]];
      var before := LinesAreTexts(json, rows, lines[..n]);
      assert lines[n] in multiset(lines);
      assert lines[n] in Texts(json, rows);
      var i :| 0 <= i < |rows| && Texts(json, rows)[i] == lines[n];
      landed := before + [rows[i]];
    }
  }

  lemma {:induction false} LandedCounts(json: Json, rows: seq<Row>, landed: seq<Row>)
    requires Serialises(json) && multiset(Texts(json, landed)) <= multiset(Texts(json, rows))
    ensures multiset(landed) <= multiset(rows)
    ensures multiset(landed) == multiset(rows) <==> multiset(Texts(json, landed)) == multiset(Texts(json, rows))
  {
    forall r ensures multiset(landed)[r] <= multiset(rows)[r] {
      TextsCount(json, landed, r);
      TextsCount(json, rows, r);
    }
    if multiset(landed) == multiset(rows) {
      assert |multiset(landed)| == |landed| && |multiset(rows)| == |rows|;
      SameSize(multiset(Texts(json, landed)), multiset(Texts(json, rows)));
    } else if multiset(Texts(json, landed)) == multiset(Texts(json, rows)) {
      forall r ensures multiset(landed)[r] == multiset(rows)[r] {
        TextsCount(json, landed, r);
        TextsCount(json, rows, r);
      }
    }
  }

  lemma {:induction false} SameSize(a: multiset<string>, b: multiset<string>)
    requires a <= b && |a| == |b|
    ensures a == b
  {
    assert b == a + (b - a);
    assert |b - a| == 0;
  }

  /** What the batcher returns and uploads for the rows a worker publishes next. */
  function BatchOf(chain: Chain, s: World, w: nat, json: Json, failures: Failures): Batching.Outcome
    requires CanPublish(chain, s, w)
  {
    var m := MessageOf(s, w);
    var rows := NextRows(chain, s, w);
    Batch(RangeName(m.range.start, m.range.end), Times(rows), Texts(json, rows), failures)
  }

  /** The files of a publish hold some of its rows, and if the call returns they hold all of them if and only if none of
      its intermediate flushes was refused. */
  lemma {:induction false} BatchLands(chain: Chain, s: World, w: nat, json: Json, failures: Failures) returns (landed: seq<Row>)
    requires CanPublish(chain, s, w) && Serialises(json)
    ensures AllLines(BatchOf(chain, s, w, json, failures).uploads) == Texts(json, landed)
    ensures CanLand(chain, s, w, multiset(landed))
    ensures BatchOf(chain, s, w, json, failures).result.Success? ==>
      (multiset(landed) == multiset(NextRows(chain, s, w)) <==> NoneRefused(failures, Flushes(Times(NextRows(chain, s, w)))))
  {
    hide Extractable, MessageRows, Batch, AllLines, NoneRefused, Flushes;
    var m := MessageOf(s, w);
    var rows := NextRows(chain, s, w);
    var name, times, records := RangeName(m.range.start, m.range.end), Times(rows), Texts(json, rows);
    UploadedAreRecords(name, times, records, failures);
    landed := LinesAreTexts(json, rows, AllLines(Batch(name, times, records, failures).uploads));
    LandedCounts(json, rows, landed);
    if Batch(name, times, records, failures).result.Success? {
      UploadsAllExactly(name, times, records, failures);
    }
  }

  /** So a call that panics is the step that publishes a part of the table, and a call that returns the step that goes on to
      the next one; the job stays whole, and the step is the lossless one, if and only if no intermediate flush is refused. */
  lemma {:induction false} BatchIsPublishStep(chain: Chain, s: World, w: nat, json: Json,
                                              failures: Failures) returns (landed: seq<Row>)
    requires CanPublish(chain, s, w) && Serialises(json) && s.jobs[w].whole
    ensures AllLines(BatchOf(chain, s, w, json, failures).uploads) == Texts(json, landed)
    ensures Step(chain, s, PublishPart(w, multiset(landed))).Some? && Step(chain, s, PublishLossy(w, multiset(landed))).Some?
    ensures BatchOf(chain, s, w, json, failures).result.Success? ==>
      (Step(chain, s, PublishLossy(w, multiset(landed))) == Step(chain, s, PublishTable(w))
       <==> NoneRefused(failures, Flushes(Times(NextRows(chain, s, w)))))
  {
    hide BatchOf, Extractable, MessageRows, AllLines, NoneRefused, Flushes, Serialises;
    landed := BatchLands(chain, s, w, json, failures);
    LandsAsPublished(chain, s, w, multiset(landed));
  }

  lemma {:induction false} LandsAsPublished(chain: Chain, s: World, w: nat, landed: multiset<Row>)
    requires CanLand(chain, s, w, landed) && s.jobs[w].whole
    ensures Step(chain, s, PublishLossy(w, landed)) == Step(chain, s, PublishTable(w)) <==> landed == multiset(NextRows(chain, s, w))
    ensures Step(chain, s, PublishPart(w, landed)).Some? && Step(chain, s, PublishLossy(w, landed)).Some?
  {
    hide Extractable, MessageRows, AddRows;
    var rows := multiset(NextRows(chain, s, w));
    var lossy, all := Land(s, w, landed, landed == rows), Land(s, w, rows, true);
    assert lossy.jobs[w].whole == (landed == rows) && all.jobs[w].whole;
  }
}
