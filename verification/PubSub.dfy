/** The chunked Pub/Sub publisher with its retries (output/google_pubsub.rs). */
module PubSub {

  /** One send: which message of the batch it is for, what it carries, and whether the server confirmed it. */
  datatype Attempt<T> = Attempt(index: nat, payload: T, confirmed: bool)

  const CHUNK: nat := 900

  /** How the server answers: whether message i of a bulk send is confirmed, and how often its single sends fail. */
  datatype Server = Server(bulk: nat -> bool, failures: nat -> nat)

  function Min(a: nat, b: nat): nat {
    if a < b then a else b
  }

  /** The single sends of one message: every failure is followed by another send, a success by none. */
  function Retries<T>(index: nat, payload: T, failures: nat): seq<Attempt<T>> {
    seq(failures, _ => Attempt(index, payload, false)) + [Attempt(index, payload, true)]
  }

  /** The bulk send of a chunk whose first message has number base. */
  function Bulk<T>(chunk: seq<T>, base: nat, server: Server): seq<Attempt<T>> {
    seq(|chunk|, i requires 0 <= i < |chunk| => Attempt(base + i, chunk[i], server.bulk(base + i)))
  }

  /** The single sends for the first n messages of a chunk, for those the bulk send did not confirm. */
  function Repairs<T>(chunk: seq<T>, base: nat, server: Server, n: nat): seq<Attempt<T>>
    requires n <= |chunk|
  {
    if n == 0 then []
    else Repairs(chunk, base, server, n - 1)
         + (if server.bulk(base + n - 1) then [] else Retries(base + n - 1, chunk[n - 1], server.failures(base + n - 1)))
  }

  function ChunkSends<T>(chunk: seq<T>, base: nat, server: Server): seq<Attempt<T>> {
    Bulk(chunk, base, server) + Repairs(chunk, base, server, |chunk|)
  }

  /** Everything sent for the messages from number base on. */
  function Sends<T>(messages: seq<T>, base: nat, server: Server): seq<Attempt<T>>
    requires base <= |messages|
    decreases |messages| - base
  {
    if base == |messages| then []
    else
      var end := Min(base + CHUNK, |messages|);
      ChunkSends(messages[base..end], base, server) + Sends(messages, end, server)
  }

  class Publisher<T> {
    var sent: seq<Attempt<T>>

    constructor ()
      ensures sent == []
    {
      sent := [];
    }

    /** `publish_bulk` and its awaiters: one result for each message, in order. */
    method PublishBulk(messages: seq<T>, base: nat, server: Server) returns (results: seq<bool>)
      modifies this
      ensures sent == old(sent) + Bulk(messages, base, server)
      ensures |results| == |messages| && forall i :: 0 <= i < |results| ==> results[i] == server.bulk(base + i)
    {
      results := seq(|messages|, i requires 0 <= i < |messages| => server.bulk(base + i));
      sent := sent + Bulk(messages, base, server);
    }

    /** `publish_with_backoff`: sends once, then again until a send is confirmed. */
    method PublishWithBackoff(index: nat, message: T, failures: nat)
      modifies this
      ensures sent == old(sent) + Retries(index, message, failures)
    {
      var tries := 0;
      var confirmed := tries == failures;
      sent := sent + [Attempt(index, message, confirmed)];
      while !confirmed
        invariant tries <= failures && confirmed == (tries == failures)
        invariant sent == old(sent) + seq(tries, _ => Attempt(index, message, false)) + [Attempt(index, message, confirmed)]
        decreases failures - tries
      {
        tries := tries + 1;
        confirmed := tries == failures;
        ghost var before := sent;
        sent := sent + [Attempt(index, message, confirmed)];
        assert before == old(sent) + seq(tries, _ => Attempt(index, message, false));
      }
    }

    /** `publish_batch_with_backoff`: the bulk send, then single sends for the failed entries. */
    method PublishBatchWithBackoff(messages: seq<T>, base: nat, server: Server)
      modifies this
      ensures sent == old(sent) + ChunkSends(messages, base, server)
    {
      hide Retries, Bulk;
      var results := PublishBulk(messages, base, server);
      ghost var bulk := sent;
      for i := 0 to |results|
        invariant sent == bulk + Repairs(messages, base, server, i)
      {
        if !results[i] {
          PublishWithBackoff(base + i, messages[i], server.failures(base + i));
        }
      }
    }

    /** `publish_batch`: chunks of 900. */
    method PublishBatch(messages: seq<T>, server: Server)
      modifies this
      ensures sent == old(sent) + Sends(messages, 0, server)
    {
      hide ChunkSends;
      var base := 0;
      ghost var done: seq<Attempt<T>> := [];
      while base < |messages|
        invariant base <= |messages| && sent == old(sent) + done
        invariant done + Sends(messages, base, server) == Sends(messages, 0, server)
      {
        var end := Min(base + CHUNK, |messages|);
        PublishBatchWithBackoff(messages[base..end], base, server);
        ghost var chunk := ChunkSends(messages[base..end], base, server);
        Regroup(old(sent), done, chunk);
        Regroup(done, chunk, Sends(messages, end, server));
        done := done + chunk;
        base := end;
      }
      assert done + [] == done;
    }
  }

  lemma {:induction false} Regroup<T>(a: seq<T>, b: seq<T>, c: seq<T>)
    ensures (a + b) + c == a + (b + c)
  {
  }

  /** Bulk sends are of 900 messages, but for the last, which is of what is left: a batch goes out as the sends of messages
      900 k to 900 k + 899, for every k. */
  lemma {:induction false} SendsByNineHundreds<T>(messages: seq<T>, k: nat, server: Server)
    requires 900 * k < |messages|
    ensures
      var end := if 900 * (k + 1) <= |messages| then 900 * (k + 1) else |messages|;
      Sends(messages, 900 * k, server) == ChunkSends(messages[900 * k..end], 900 * k, server) + Sends(messages, end, server)
    ensures Sends(messages, |messages|, server) == []
  {
    hide ChunkSends;
  }

  // Exactly one confirmed send each

  /** The payloads of the confirmed sends for message i. */
  function Confirmed<T>(sends: seq<Attempt<T>>, i: nat): seq<T> {
    if sends == [] then []
    else
      var last := sends[|sends| - 1];
      Confirmed(sends[..|sends| - 1], i) + (if last.index == i && last.confirmed then [last.payload] else [])
  }

  lemma {:induction false} ConfirmedAppend<T>(a: seq<Attempt<T>>, b: seq<Attempt<T>>, i: nat)
    ensures Confirmed(a + b, i) == Confirmed(a, i) + Confirmed(b, i)
  {
    if b == [] {
      assert a + b == a;
    } else {
      var n := |b| - 1;
      ConfirmedAppend(a, b[..n], i);
      assert (a + b)[..|a + b| - 1] == a + b[..n];
    }
  }

  lemma {:induction false} NoneConfirmed<T>(sends: seq<Attempt<T>>, i: nat)
    requires forall k :: 0 <= k < |sends| ==> !(sends[k].index == i && sends[k].confirmed)
    ensures Confirmed(sends, i) == []
  {
    if sends != [] {
      NoneConfirmed(sends[..|sends| - 1], i);
    }
  }

  lemma {:induction false} RetriesConfirmOnce<T>(index: nat, payload: T, failures: nat, i: nat)
    ensures Confirmed(Retries(index, payload, failures), i) == if i == index then [payload] else []
  {
    var failed := seq(failures, _ => Attempt(index, payload, false));
    NoneConfirmed(failed, i);
    assert Retries(index, payload, failures)[..failures] == failed;
  }

  lemma {:induction false} BulkConfirms<T>(chunk: seq<T>, base: nat, server: Server, i: nat)
    ensures Confirmed(Bulk(chunk, base, server), i) ==
      if base <= i < base + |chunk| && server.bulk(i) then [chunk[i - base]] else []
    decreases |chunk|
  {
    if chunk != [] {
      var n := |chunk| - 1;
      BulkConfirms(chunk[..n], base, server, i);
      assert Bulk(chunk, base, server)[..n] == Bulk(chunk[..n], base, server);
    }
  }

  lemma {:induction false} NothingConfirmed<T>(i: nat)
    ensures Confirmed<T>([], i) == []
  {
  }

  lemma {:induction false} RepairsConfirm<T>(chunk: seq<T>, base: nat, server: Server, n: nat, i: nat)
    requires n <= |chunk|
    ensures Confirmed(Repairs(chunk, base, server, n), i) ==
      if base <= i < base + n && !server.bulk(i) then [chunk[i - base]] else []
  {
    hide Confirmed, Retries;
    if n == 0 {
      NothingConfirmed<T>(i);
    } else {
      RepairsConfirm(chunk, base, server, n - 1, i);
      if !server.bulk(base + n - 1) {
        var more := Retries(base + n - 1, chunk[n - 1], server.failures(base + n - 1));
        ConfirmedAppend(Repairs(chunk, base, server, n - 1), more, i);
        RetriesConfirmOnce(base + n - 1, chunk[n - 1], server.failures(base + n - 1), i);
      } else {
        assert Repairs(chunk, base, server, n) == Repairs(chunk, base, server, n - 1);
      }
    }
  }

  lemma {:induction false} ChunkConfirms<T>(chunk: seq<T>, base: nat, server: Server, i: nat)
    ensures Confirmed(ChunkSends(chunk, base, server), i) == if base <= i < base + |chunk| then [chunk[i - base]] else []
  {
    hide Confirmed, Bulk, Repairs;
    BulkConfirms(chunk, base, server, i);
    RepairsConfirm(chunk, base, server, |chunk|, i);
    ConfirmedAppend(Bulk(chunk, base, server), Repairs(chunk, base, server, |chunk|), i);
  }

  /** For any failures, every message of the batch gets exactly one confirmed send, of its own payload. */
  lemma {:induction false} EachConfirmedOnce<T>(messages: seq<T>, base: nat, server: Server, i: nat)
    requires base <= |messages|
    ensures Confirmed(Sends(messages, base, server), i) == if base <= i < |messages| then [messages[i]] else []
    decreases |messages| - base
  {
    hide Confirmed, ChunkSends;
    if base == |messages| {
      NothingConfirmed<T>(i);
    } else {
      var end := Min(base + CHUNK, |messages|);
      var chunk := messages[base..end];
      EachConfirmedOnce(messages, end, server, i);
      ChunkConfirms(chunk, base, server, i);
      ConfirmedAppend(ChunkSends(chunk, base, server), Sends(messages, end, server), i);
    }
  }

  /** No send carries another message's payload. */
  ghost predicate OwnPayloads<T>(sends: seq<Attempt<T>>, messages: seq<T>) {
    forall k :: 0 <= k < |sends| ==> sends[k].index < |messages| && sends[k].payload == messages[sends[k].index]
  }

  lemma {:induction false} NothingOwned<T>(messages: seq<T>)
    ensures OwnPayloads<T>([], messages)
  {
  }

  lemma {:induction false} BulkOwns<T>(messages: seq<T>, base: nat, end: nat, server: Server)
    requires base <= end <= |messages|
    ensures OwnPayloads(Bulk(messages[base..end], base, server), messages)
  {
  }

  lemma {:induction false} OneRepairOwns<T>(messages: seq<T>, index: nat, failures: nat)
    requires index < |messages|
    ensures OwnPayloads(Retries(index, messages[index], failures), messages)
  {
  }

  lemma {:induction false} AppendOwns<T>(a: seq<Attempt<T>>, b: seq<Attempt<T>>, messages: seq<T>)
    requires OwnPayloads(a, messages) && OwnPayloads(b, messages)
    ensures OwnPayloads(a + b, messages)
  {
  }

  lemma {:induction false} RepairsOwn<T>(messages: seq<T>, base: nat, end: nat, server: Server, n: nat)
    requires base <= end <= |messages| && n <= end - base
    ensures OwnPayloads(Repairs(messages[base..end], base, server, n), messages)
  {
    hide OwnPayloads, Retries;
    var chunk := messages[base..end];
    if n == 0 {
      NothingOwned(messages);
    } else {
      RepairsOwn(messages, base, end, server, n - 1);
      OneRepairOwns(messages, base + n - 1, server.failures(base + n - 1));
      assert chunk[n - 1] == messages[base + n - 1];
      NothingOwned(messages);
      AppendOwns(Repairs(chunk, base, server, n - 1),
                 if server.bulk(base + n - 1) then [] else Retries(base + n - 1, chunk[n - 1], server.failures(base + n - 1)),
                 messages);
    }
  }

  lemma {:induction false} SendsOwn<T>(messages: seq<T>, base: nat, server: Server)
    requires base <= |messages|
    ensures OwnPayloads(Sends(messages, base, server), messages)
    decreases |messages| - base
  {
    hide OwnPayloads, Bulk, Repairs;
    if base == |messages| {
      NothingOwned(messages);
    } else {
      var end := Min(base + CHUNK, |messages|);
      var chunk := messages[base..end];
      SendsOwn(messages, end, server);
      BulkOwns(messages, base, end, server);
      RepairsOwn(messages, base, end, server, end - base);
      AppendOwns(Bulk(chunk, base, server), Repairs(chunk, base, server, |chunk|), messages);
      AppendOwns(ChunkSends(chunk, base, server), Sends(messages, end, server), messages);
    }
  }
}
