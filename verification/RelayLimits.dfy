/** Limits that hold in every reachable store, and what expiry takes with it. */
module RelayLimits {
  import opened Words
  import opened RelayStore
  import opened RelayLog

  /** Every blob, and every queue in all, within its size. */
  predicate WithinLimits(queues: Queues) {
    forall q :: q in queues ==>
      && Load(queues[q].blobs) <= MAX_QUEUE_LEN
      && forall b :: b in queues[q].blobs ==> |b.bytes| <= MAX_BLOB_LEN
  }

  /** No blob is newer than its queue's last write, and no write newer than the clock. */
  predicate Ordered(queues: Queues, clock: u64) {
    forall q :: q in queues ==>
      && queues[q].lastWriteMs <= clock
      && forall b :: b in queues[q].blobs ==> b.writtenMs <= queues[q].lastWriteMs
  }

  lemma {:induction false} RetainIsPart(blobs: seq<Blob>, keep: Blob -> bool)
    ensures forall b :: b in Retain(blobs, keep) <==> b in blobs && keep(b)
    ensures Load(Retain(blobs, keep)) <= Load(blobs)
  {
    if blobs != [] {
      var init, last := blobs[..|blobs| - 1], blobs[|blobs| - 1];
      RetainIsPart(init, keep);
      assert blobs == init + [last];
      if keep(last) {
        LoadPush(Retain(init, keep), last);
      }
    }
  }

  lemma LoadPush(blobs: seq<Blob>, b: Blob)
    ensures Load([]) == 0 && Load(blobs + [b]) == Load(blobs) + |b.bytes|
  {
    assert (blobs + [b])[..|blobs|] == blobs;
  }

  lemma ApplyKeepsLimits(namer: Namer, queues: Queues, event: Event)
    requires WithinLimits(queues)
    ensures WithinLimits(Apply(namer, queues, event))
  {
    var next := Apply(namer, queues, event);
    forall q | q in next
      ensures Load(next[q].blobs) <= MAX_QUEUE_LEN && forall b :: b in next[q].blobs ==> |b.bytes| <= MAX_BLOB_LEN
    {
      if event.Write? && q == event.queue && WriteVerdict(namer, queues, q, event.blob).Ok? {
        LoadPush(queues[q].blobs, Blob(namer(event.blob), event.blob, event.nowMs));
      } else if event.Delete? && q == event.queue {
        RetainIsPart(queues[q].blobs, (b: Blob) => b.id != event.id);
      } else if event.Expire? {
        RetainIsPart(queues[q].blobs, (b: Blob) => Fresh(b, event.nowMs));
      }
    }
  }

  /** In every run, whatever its clock does, blobs and queues stay within their sizes. */
  lemma {:induction false} LimitsHold(namer: Namer, log: seq<Event>, n: nat)
    requires n <= |log|
    ensures WithinLimits(After(namer, log, n))
  {
    if n > 0 {
      LimitsHold(namer, log, n - 1);
      ApplyKeepsLimits(namer, After(namer, log, n - 1), log[n - 1]);
    }
  }

  function TimeOf(event: Event, otherwise: u64): u64 {
    if event.Delete? then otherwise else event.nowMs
  }

  /** The time of the last of the first `n` events that has one. */
  function Clock(log: seq<Event>, n: nat): u64
    requires n <= |log|
  {
    if n == 0 then 0 else TimeOf(log[n - 1], Clock(log, n - 1))
  }

  predicate ClockNeverRunsBack(log: seq<Event>) {
    forall i :: 0 <= i < |log| ==> Clock(log, i) <= Clock(log, i + 1)
  }

  lemma ApplyKeepsOrder(namer: Namer, queues: Queues, event: Event, clock: u64)
    requires Ordered(queues, clock) && clock <= TimeOf(event, clock)
    ensures Ordered(Apply(namer, queues, event), TimeOf(event, clock))
  {
    var next := Apply(namer, queues, event);
    forall q | q in next
      ensures next[q].lastWriteMs <= TimeOf(event, clock)
      ensures forall b :: b in next[q].blobs ==> b.writtenMs <= next[q].lastWriteMs
    {
      if event.Delete? && q == event.queue {
        RetainIsPart(queues[q].blobs, (b: Blob) => b.id != event.id);
      } else if event.Expire? {
        RetainIsPart(queues[q].blobs, (b: Blob) => Fresh(b, event.nowMs));
      }
    }
  }

  lemma {:induction false} OrderHolds(namer: Namer, log: seq<Event>, n: nat)
    requires n <= |log| && ClockNeverRunsBack(log)
    ensures Ordered(After(namer, log, n), Clock(log, n))
  {
    if n > 0 {
      OrderHolds(namer, log, n - 1);
      assert Clock(log, n - 1) <= Clock(log, n - 1 + 1);
      ApplyKeepsOrder(namer, After(namer, log, n - 1), log[n - 1], Clock(log, n - 1));
    }
  }

  /** Expiry takes a blob that has not outlived its life, because its queue has. */
  ghost predicate LosesFreshBlob(namer: Namer, queues: Queues, nowMs: u64) {
    exists q, b :: q in queues && b in queues[q].blobs && Fresh(b, nowMs)
                   && q !in Apply(namer, queues, Expire(nowMs))
  }

  lemma HasMember(blobs: seq<Blob>)
    requires blobs != []
    ensures exists b :: b in blobs
  {
    assert blobs[0] in blobs;
  }

  /**
   * Expiry takes exactly the blobs past their life when no blob is newer than
   * its queue's last write: a queue that goes has none left by then.
   */
  lemma ExpiryTakesOnlyTheStale(namer: Namer, queues: Queues, nowMs: u64, clock: u64)
    requires Ordered(queues, clock)
    ensures !LosesFreshBlob(namer, queues, nowMs)
    ensures forall q :: q in queues && q !in Apply(namer, queues, Expire(nowMs)) ==>
              FreshOnly(queues[q].blobs, nowMs) == []
    ensures forall q, b :: q in Apply(namer, queues, Expire(nowMs)) ==>
              (b in Apply(namer, queues, Expire(nowMs))[q].blobs <==> b in queues[q].blobs && Fresh(b, nowMs))
  {
    forall q | q in queues
      ensures forall b :: b in FreshOnly(queues[q].blobs, nowMs) <==> b in queues[q].blobs && Fresh(b, nowMs)
      ensures !Alive(queues[q], nowMs) ==> FreshOnly(queues[q].blobs, nowMs) == []
    {
      var keep := (b: Blob) => Fresh(b, nowMs);
      RetainIsPart(queues[q].blobs, keep);
      var kept := Retain(queues[q].blobs, keep);
      if kept != [] {
        HasMember(kept);
      }
    }
  }

  /** In every run whose clock never runs back, an expiry loses nothing that was fresh. */
  lemma ExpiryIsExact(namer: Namer, log: seq<Event>, n: nat)
    requires n < |log| && ClockNeverRunsBack(log) && log[n].Expire?
    ensures !LosesFreshBlob(namer, After(namer, log, n), log[n].nowMs)
  {
    OrderHolds(namer, log, n);
    ExpiryTakesOnlyTheStale(namer, After(namer, log, n), log[n].nowMs, Clock(log, n));
  }

  /**
   * In any state, an expiry loses a fresh blob exactly when that blob was
   * written more than thirty days after the time its queue has for its last
   * write, and the time lies between the two lives: the clock had run back.
   */
  lemma LosesFreshBlobWhen(namer: Namer, queues: Queues, nowMs: u64)
    ensures LosesFreshBlob(namer, queues, nowMs)
       <==> exists q, b :: q in queues && b in queues[q].blobs
              && SatAdd(queues[q].lastWriteMs, QUEUE_LIFE) < nowMs <= SatAdd(b.writtenMs, BLOB_LIFE)
  {
    if LosesFreshBlob(namer, queues, nowMs) {
      var q, b :| q in queues && b in queues[q].blobs && Fresh(b, nowMs)
                  && q !in Apply(namer, queues, Expire(nowMs));
      assert q in queues && b in queues[q].blobs
             && SatAdd(queues[q].lastWriteMs, QUEUE_LIFE) < nowMs <= SatAdd(b.writtenMs, BLOB_LIFE);
    }
    if q, b :| q in queues && b in queues[q].blobs
               && SatAdd(queues[q].lastWriteMs, QUEUE_LIFE) < nowMs <= SatAdd(b.writtenMs, BLOB_LIFE) {
      assert q in queues && b in queues[q].blobs && Fresh(b, nowMs) && q !in Apply(namer, queues, Expire(nowMs));
    }
  }

  /** No blob outlives the queue that holds it. */
  ghost predicate QueuesOutlastBlobs(queues: Queues) {
    forall q, b :: q in queues && b in queues[q].blobs ==>
      SatAdd(b.writtenMs, BLOB_LIFE) <= SatAdd(queues[q].lastWriteMs, QUEUE_LIFE)
  }

  /** A state is safe from every expiry, whenever it comes, exactly when no blob in it outlives its queue. */
  lemma SafeFromExpiryWhen(namer: Namer, queues: Queues)
    ensures (forall nowMs: u64 :: !LosesFreshBlob(namer, queues, nowMs)) <==> QueuesOutlastBlobs(queues)
  {
    forall q, b | q in queues && b in queues[q].blobs
                  && SatAdd(b.writtenMs, BLOB_LIFE) > SatAdd(queues[q].lastWriteMs, QUEUE_LIFE)
      ensures exists nowMs: u64 :: LosesFreshBlob(namer, queues, nowMs)
    {
      var nowMs := SatAdd(b.writtenMs, BLOB_LIFE);
      LosesFreshBlobWhen(namer, queues, nowMs);
      assert LosesFreshBlob(namer, queues, nowMs);
    }
    forall nowMs: u64 | LosesFreshBlob(namer, queues, nowMs) ensures !QueuesOutlastBlobs(queues) {
      LosesFreshBlobWhen(namer, queues, nowMs);
    }
  }

  /** A run whose clock runs back between two writes: the first blob is lost while fresh. */
  lemma ClockRunningBackLosesABlob(namer: Namer, queue: QueueId, registration: Registration)
    ensures var log := [Register(queue, registration, 40 * DAY_MS), Write(queue, [], 40 * DAY_MS), Write(queue, [], 0)];
            LosesFreshBlob(namer, After(namer, log, 3), 61 * DAY_MS)
  {
    var log := [Register(queue, registration, 40 * DAY_MS), Write(queue, [], 40 * DAY_MS), Write(queue, [], 0)];
    var first, second := Blob(namer([]), [], 40 * DAY_MS), Blob(namer([]), [], 0);
    assert After(namer, log, 1) == map[queue := Queue(registration, [], 40 * DAY_MS)];
    assert Load([first][..0]) == 0;
    assert [] + [first] == [first];
    assert After(namer, log, 2) == map[queue := Queue(registration, [first], 40 * DAY_MS)];
    LoadPush([], first);
    assert [first] + [second] == [first, second];
    assert After(namer, log, 3) == map[queue := Queue(registration, [first, second], 0)];
    var queues := After(namer, log, 3);
    assert first in queues[queue].blobs && Fresh(first, 61 * DAY_MS) && !Alive(queues[queue], 61 * DAY_MS);
    assert queue !in Apply(namer, queues, Expire(61 * DAY_MS));
  }
}
