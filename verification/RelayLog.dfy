/** The relay's store as a log of events: what a queue holds, after any run, and why. */
module RelayLog {
  import opened Words
  import opened RelayStore

  /** The queues after the first `n` events. */
  function After(namer: Namer, log: seq<Event>, n: nat): Queues
    requires n <= |log|
  {
    if n == 0 then map[] else Apply(namer, After(namer, log, n - 1), log[n - 1])
  }

  // What the log itself says.

  /** The event at `i` wrote a blob to the queue, and was told so. */
  predicate AcceptedAt(namer: Namer, log: seq<Event>, queue: QueueId, i: nat)
    requires i < |log|
  {
    && log[i].Write? && log[i].queue == queue
    && WriteVerdict(namer, After(namer, log, i), queue, log[i].blob).Ok?
  }

  /** When the queue was last written to, or else created; nothing while it does not exist. */
  function LastTouch(namer: Namer, log: seq<Event>, queue: QueueId, n: nat): Option<u64>
    requires n <= |log|
  {
    if n == 0 then Option.None
    else
      var before, e := LastTouch(namer, log, queue, n - 1), log[n - 1];
      if e.Register? && e.queue == queue && before.None? then Some(e.nowMs)
      else if AcceptedAt(namer, log, queue, n - 1) then Some(e.nowMs)
      else if e.Expire? && before.Some? && SatAdd(before.value, QUEUE_LIFE) < e.nowMs then Option.None
      else before
  }

  /** The event that created the queue there is, if there is one. */
  function Born(namer: Namer, log: seq<Event>, queue: QueueId, n: nat): (b: Option<nat>)
    requires n <= |log|
    ensures b.Some? ==> b.value < n && log[b.value].Register? && log[b.value].queue == queue
    ensures b.Some? <==> LastTouch(namer, log, queue, n).Some?
  {
    if n == 0 then Option.None
    else
      var before := Born(namer, log, queue, n - 1);
      if LastTouch(namer, log, queue, n).None? then Option.None
      else if before.None? then (BornByRegister(namer, log, queue, n); Some(n - 1))
      else before
  }

  /** A queue comes to be only by being registered. */
  lemma BornByRegister(namer: Namer, log: seq<Event>, queue: QueueId, n: nat)
    requires 0 < n <= |log|
    requires LastTouch(namer, log, queue, n - 1).None? && LastTouch(namer, log, queue, n).Some?
    ensures log[n - 1].Register? && log[n - 1].queue == queue
  {
    QueueExists(namer, log, queue, n - 1);
  }

  lemma {:induction false} QueueExists(namer: Namer, log: seq<Event>, queue: QueueId, n: nat)
    requires n <= |log|
    ensures queue in After(namer, log, n) <==> LastTouch(namer, log, queue, n).Some?
    ensures queue in After(namer, log, n) ==>
              LastTouch(namer, log, queue, n).value == After(namer, log, n)[queue].lastWriteMs
  {
    if n > 0 {
      QueueExists(namer, log, queue, n - 1);
    }
  }

  /** The blob an accepted write left in its queue. */
  function BlobOf(namer: Namer, log: seq<Event>, i: nat): Blob
    requires i < |log| && log[i].Write?
  {
    Blob(namer(log[i].blob), log[i].blob, log[i].nowMs)
  }

  /** An event that takes a blob out of its queue: its deletion, or an expiry past its life. */
  predicate Removes(event: Event, queue: QueueId, blob: Blob) {
    || (event.Delete? && event.queue == queue && event.id == blob.id)
    || (event.Expire? && !Fresh(blob, event.nowMs))
  }

  /**
   * A write that is still there after `n` events: accepted since the queue was
   * created, its blob not deleted by name since, and outliving every expiry
   * since.
   */
  ghost predicate Survives(namer: Namer, log: seq<Event>, queue: QueueId, i: nat, n: nat)
    requires i < n <= |log|
  {
    && AcceptedAt(namer, log, queue, i)
    && Born(namer, log, queue, n).Some? && Born(namer, log, queue, n).value < i
    && forall j :: i < j < n ==> !Removes(log[j], queue, BlobOf(namer, log, i))
  }

  /** The blobs of the surviving writes among the first `k` events, in the order written. */
  ghost function Survivors(namer: Namer, log: seq<Event>, queue: QueueId, k: nat, n: nat): seq<Blob>
    requires k <= n <= |log|
  {
    if k == 0 then []
    else if Survives(namer, log, queue, k - 1, n) then
      Survivors(namer, log, queue, k - 1, n) + [BlobOf(namer, log, k - 1)]
    else Survivors(namer, log, queue, k - 1, n)
  }

  // One event more.

  /** An event that leaves the queue's birth alone leaves the survivors it does not remove. */
  lemma {:induction false} SurvivorsRetain(
    namer: Namer, log: seq<Event>, queue: QueueId, k: nat, n: nat, keep: Blob -> bool)
    requires k < n <= |log|
    requires Born(namer, log, queue, n) == Born(namer, log, queue, n - 1)
    requires forall b :: keep(b) <==> !Removes(log[n - 1], queue, b)
    ensures Survivors(namer, log, queue, k, n) == Retain(Survivors(namer, log, queue, k, n - 1), keep)
  {
    if k > 0 {
      SurvivorsRetain(namer, log, queue, k - 1, n, keep);
      SurvivesOneMore(namer, log, queue, k - 1, n);
      var init := Survivors(namer, log, queue, k - 1, n - 1);
      if Survives(namer, log, queue, k - 1, n - 1) {
        var b := BlobOf(namer, log, k - 1);
        assert (init + [b])[..|init|] == init;
      }
    }
  }

  lemma SurvivesOneMore(namer: Namer, log: seq<Event>, queue: QueueId, i: nat, n: nat)
    requires i + 1 < n <= |log|
    requires Born(namer, log, queue, n) == Born(namer, log, queue, n - 1)
    ensures Survives(namer, log, queue, i, n)
       <==> Survives(namer, log, queue, i, n - 1) && !Removes(log[n - 1], queue, BlobOf(namer, log, i))
  {
  }

  lemma {:induction false} NoSurvivors(namer: Namer, log: seq<Event>, queue: QueueId, k: nat, n: nat)
    requires k <= n <= |log|
    requires Born(namer, log, queue, n).None? || k <= Born(namer, log, queue, n).value + 1
    ensures Survivors(namer, log, queue, k, n) == []
  {
    if k > 0 {
      NoSurvivors(namer, log, queue, k - 1, n);
    }
  }

  lemma {:induction false} RetainAll(blobs: seq<Blob>, keep: Blob -> bool)
    requires forall b :: b in blobs ==> keep(b)
    ensures Retain(blobs, keep) == blobs
  {
    if blobs != [] {
      RetainAll(blobs[..|blobs| - 1], keep);
      assert blobs == blobs[..|blobs| - 1] + [blobs[|blobs| - 1]];
    }
  }

  /** Two ways of saying what to keep that agree keep the same. */
  lemma {:induction false} RetainAlike(blobs: seq<Blob>, f: Blob -> bool, g: Blob -> bool)
    requires forall b :: f(b) <==> g(b)
    ensures Retain(blobs, f) == Retain(blobs, g)
  {
    if blobs != [] {
      RetainAlike(blobs[..|blobs| - 1], f, g);
    }
  }

  /** The survivors after one event more, told by the event. */
  lemma SurvivorsStep(namer: Namer, log: seq<Event>, queue: QueueId, n: nat)
    requires 0 < n <= |log|
    requires Born(namer, log, queue, n - 1).Some? && Born(namer, log, queue, n).Some?
    ensures var before, e := Survivors(namer, log, queue, n - 1, n - 1), log[n - 1];
            Survivors(namer, log, queue, n, n)
              == if AcceptedAt(namer, log, queue, n - 1) then before + [BlobOf(namer, log, n - 1)]
                 else if e.Delete? && e.queue == queue then Without(before, e.id)
                 else if e.Expire? then FreshOnly(before, e.nowMs)
                 else before
  {
    var before, e := Survivors(namer, log, queue, n - 1, n - 1), log[n - 1];
    var keep := (b: Blob) => !Removes(e, queue, b);
    SurvivorsRetain(namer, log, queue, n - 1, n, keep);
    if e.Delete? && e.queue == queue {
      RetainAlike(before, keep, (b: Blob) => b.id != e.id);
    } else if e.Expire? {
      RetainAlike(before, keep, (b: Blob) => Fresh(b, e.nowMs));
    } else {
      RetainAll(before, keep);
    }
  }

  /**
   * The store refines its log: after any run of events a queue exists exactly
   * when the log says so, with the keys it was created with, and holds, in the
   * order they were written, exactly the writes that survive.
   */
  lemma {:induction false} QueueIsItsSurvivors(namer: Namer, log: seq<Event>, queue: QueueId, n: nat)
    requires n <= |log|
    ensures queue in After(namer, log, n) <==> Born(namer, log, queue, n).Some?
    ensures queue in After(namer, log, n) ==>
              var q := After(namer, log, n)[queue];
              && q.registration == log[Born(namer, log, queue, n).value].registration
              && Some(q.lastWriteMs) == LastTouch(namer, log, queue, n)
              && q.blobs == Survivors(namer, log, queue, n, n)
  {
    QueueExists(namer, log, queue, n);
    if n > 0 {
      QueueIsItsSurvivors(namer, log, queue, n - 1);
      if queue in After(namer, log, n) {
        if queue in After(namer, log, n - 1) {
          SurvivorsStep(namer, log, queue, n);
        } else {
          BornByRegister(namer, log, queue, n);
          NoSurvivors(namer, log, queue, n, n);
        }
      }
    }
  }
}
