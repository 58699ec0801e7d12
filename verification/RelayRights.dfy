/** What each request takes and does, and that nothing enters or leaves a queue without its key. */
module RelayRights {
  import opened Words
  import opened RelayStore
  import opened RelayLog
  import opened RelayLimits
  import opened RelayApi
  import opened RelayRuns

  // One request.

  /** Whether a proof answers the challenge outstanding for the right with this number. */
  predicate Proved(verify: Verifier, desk: Desk, queue: QueueId, right: Right, number: byte, proof: Proof) {
    && queue in desk.queues
    && (queue, number) in desk.challenges
    && verify(desk.queues[queue].registration, right, desk.challenges[(queue, number)], proof)
  }

  /** What a request that fails to prove itself is told. */
  function Unproved(desk: Desk, queue: QueueId, number: byte): Response {
    if queue !in desk.queues then Refused(UnknownQueue)
    else if (queue, number) !in desk.challenges then Refused(UnknownChallenge)
    else Refused(BadProof)
  }

  /** The challenge asked about is gone, good or bad, unless there is no such queue. */
  function Used(desk: Desk, queue: QueueId, number: byte): Outstanding {
    if queue in desk.queues then desk.challenges - {(queue, number)} else desk.challenges
  }

  /** Deleting takes the right to read. */
  lemma DeleteTakesTheReadKey(
    namer: Namer, verify: Verifier, desk: Desk, queue: QueueId, proof: Proof, id: BlobId, nowMs: u64,
    granted: Challenge)
    ensures var request := Request.Delete(queue, proof, id);
            var next := DeskStep(namer, verify, desk, Asked(request, nowMs, granted));
            var response := ResponseOf(namer, verify, desk, request, granted);
            && next.challenges == Used(desk, queue, 1)
            && if Proved(verify, desk, queue, ToRead, 1, proof) then
                 response == Done && next.queues == Apply(namer, desk.queues, Event.Delete(queue, id))
               else response == Unproved(desk, queue, 1) && next.queues == desk.queues
  {
  }

  /** Reading takes the right to read, answers with the oldest blob, and leaves it there. */
  lemma ReadTakesTheReadKey(
    namer: Namer, verify: Verifier, desk: Desk, queue: QueueId, proof: Proof, nowMs: u64, granted: Challenge)
    ensures var request := Read(queue, proof);
            var next := DeskStep(namer, verify, desk, Asked(request, nowMs, granted));
            var response := ResponseOf(namer, verify, desk, request, granted);
            && next.challenges == Used(desk, queue, 1) && next.queues == desk.queues
            && if !Proved(verify, desk, queue, ToRead, 1, proof) then response == Unproved(desk, queue, 1)
               else if desk.queues[queue].blobs == [] then response == Empty
               else var oldest := desk.queues[queue].blobs[0];
                    response == Response.Blob(oldest.id, oldest.bytes)
  {
  }

  /** Writing takes the right to write, and room: 64 KiB for the blob and 16 MiB for the queue. */
  lemma WriteTakesTheWriteKey(
    namer: Namer, verify: Verifier, desk: Desk, queue: QueueId, proof: Proof, blob: seq<byte>, nowMs: u64,
    granted: Challenge)
    ensures var request := Request.Write(queue, proof, blob);
            var next := DeskStep(namer, verify, desk, Asked(request, nowMs, granted));
            var response := ResponseOf(namer, verify, desk, request, granted);
            && next.challenges == Used(desk, queue, 0)
            && if !Proved(verify, desk, queue, ToWrite, 0, proof) then
                 response == Unproved(desk, queue, 0) && next.queues == desk.queues
               else
                 var held := desk.queues[queue];
                 if |blob| > 65_536 then response == Refused(TooLarge) && next.queues == desk.queues
                 else if Load(held.blobs) + |blob| > 16_777_216 then
                   response == Refused(QueueFull) && next.queues == desk.queues
                 else
                   var added := RelayStore.Blob(namer(blob), blob, nowMs);
                   && response == Done
                   && next.queues == desk.queues[queue := Queue(held.registration, held.blobs + [added], nowMs)]
  {
  }

  /** A challenge is handed out for any queue there is, in place of the one before, and does nothing else. */
  lemma ChallengeTakesAQueue(
    namer: Namer, verify: Verifier, desk: Desk, queue: QueueId, right: Right, nowMs: u64, granted: Challenge)
    ensures var request := ChallengeRequest(queue, right);
            var next := DeskStep(namer, verify, desk, Asked(request, nowMs, granted));
            var response := ResponseOf(namer, verify, desk, request, granted);
            && next.queues == desk.queues
            && if queue in desk.queues then
                 && response == Challenged(granted)
                 && next.challenges == desk.challenges[(queue, if right.ToWrite? then 0 else 1) := granted]
               else response == Refused(UnknownQueue) && next.challenges == desk.challenges
  {
  }

  /** Registering takes nothing and is never refused; a queue there is stays as it is. */
  lemma RegisteringTakesNothing(
    namer: Namer, verify: Verifier, desk: Desk, queue: QueueId, w: Bytes32, r: Bytes32, nowMs: u64, granted: Challenge)
    ensures var request := Request.Register(queue, w, r);
            var next := DeskStep(namer, verify, desk, Asked(request, nowMs, granted));
            && ResponseOf(namer, verify, desk, request, granted) == Done
            && next.challenges == desk.challenges
            && next.queues == if queue in desk.queues then desk.queues
                              else desk.queues[queue := Queue(Registration(w, r), [], nowMs)]
  {
  }

  /** What the store alone refuses, and for which reason first. */
  lemma StoreRefusesWhen(namer: Namer, queues: Queues, queue: QueueId, blob: seq<byte>)
    ensures var verdict := WriteVerdict(namer, queues, queue, blob);
            && (verdict == Err(TooLarge) <==> |blob| > 65_536)
            && (verdict == Err(UnknownQueue) <==> |blob| <= 65_536 && queue !in queues)
            && (verdict == Err(QueueFull) <==>
                  |blob| <= 65_536 && queue in queues && Load(queues[queue].blobs) + |blob| > 16_777_216)
            && (verdict.Err? ==> verdict.error in {TooLarge, UnknownQueue, QueueFull})
            && (verdict.Ok? ==> verdict.value == namer(blob))
  {
  }

  // Expiry.

  /** Thirty days for a blob and sixty for a queue, to the millisecond. */
  lemma ExpiryKeeps(namer: Namer, queues: Queues, nowMs: u64)
    ensures forall q :: q in Apply(namer, queues, Expire(nowMs)) <==>
              q in queues && nowMs <= queues[q].lastWriteMs + 60 * 86_400_000
    ensures forall q, b :: q in Apply(namer, queues, Expire(nowMs)) ==>
              (b in Apply(namer, queues, Expire(nowMs))[q].blobs <==>
                 b in queues[q].blobs && nowMs <= b.writtenMs + 30 * 86_400_000)
  {
    forall q, b | q in Apply(namer, queues, Expire(nowMs))
      ensures b in Apply(namer, queues, Expire(nowMs))[q].blobs <==>
                b in queues[q].blobs && nowMs <= b.writtenMs + 30 * 86_400_000
    {
      RetainIsPart(queues[q].blobs, (c: RelayStore.Blob) => Fresh(c, nowMs));
      assert Fresh(b, nowMs) <==> nowMs <= b.writtenMs + 30 * 86_400_000;
    }
  }

  // Whole runs.

  /** At step `i` a proof was checked that answers the latest grant, under the keys the queue was registered with. */
  ghost predicate ProvedAt(
    namer: Namer, verify: Verifier, steps: seq<Step>, i: nat, queue: QueueId, right: Right, number: byte, proof: Proof)
    requires i <= |steps|
  {
    var log := LogOf(namer, verify, steps, i);
    exists g, challenge :: 0 <= g < i
      && ComesFrom(namer, verify, steps, (queue, number), i, challenge, g)
      && Born(namer, log, queue, |log|).Some?
      && verify(log[Born(namer, log, queue, |log|).value].registration, right, challenge, proof)
  }

  lemma ProvedMeansGranted(
    namer: Namer, verify: Verifier, steps: seq<Step>, i: nat, queue: QueueId, right: Right, number: byte, proof: Proof)
    requires i <= |steps|
    requires Proved(verify, DeskAfter(namer, verify, steps, i), queue, right, number, proof)
    ensures ProvedAt(namer, verify, steps, i, queue, right, number, proof)
  {
    var log := LogOf(namer, verify, steps, i);
    QueuesAreTheLogs(namer, verify, steps, i);
    QueueIsItsSurvivors(namer, log, queue, |log|);
    var g := OutstandingComesFrom(namer, verify, steps, (queue, number), i);
    var challenge := DeskAfter(namer, verify, steps, i).challenges[(queue, number)];
    assert ComesFrom(namer, verify, steps, (queue, number), i, challenge, g);
  }

  /** A request and what it did: the blobs of a queue before it and after. */
  predicate Changes(namer: Namer, verify: Verifier, steps: seq<Step>, i: nat, queue: QueueId)
    requires i < |steps|
  {
    var before, after := DeskAfter(namer, verify, steps, i).queues, DeskAfter(namer, verify, steps, i + 1).queues;
    queue in before && (queue !in after || after[queue] != before[queue])
  }

  /**
   * Only two requests ever change a queue there is. One is a delete, with a
   * proof of the right to read; the other a write, with a proof of the right to
   * write. Each proof verifies under the keys the queue was registered with,
   * against the latest grant, never checked before.
   */
  lemma OnlyTheKeysChangeAQueue(namer: Namer, verify: Verifier, steps: seq<Step>, i: nat, queue: QueueId)
    requires i < |steps| && steps[i].Asked? && Changes(namer, verify, steps, i, queue)
    ensures var request := steps[i].request;
            && request.queue == queue
            && ((request.Delete? && ProvedAt(namer, verify, steps, i, queue, ToRead, 1, request.proof))
                || (request.Write? && ProvedAt(namer, verify, steps, i, queue, ToWrite, 0, request.proof)))
  {
    var desk, step := DeskAfter(namer, verify, steps, i), steps[i];
    var request := step.request;
    if request.Register? {
      RegisteringTakesNothing(
        namer, verify, desk, request.queue, request.writePublic, request.readPublic, step.nowMs, step.freshChallenge);
    } else if request.ChallengeRequest? {
      ChallengeTakesAQueue(namer, verify, desk, request.queue, request.right, step.nowMs, step.freshChallenge);
    } else if request.Read? {
      ReadTakesTheReadKey(namer, verify, desk, request.queue, request.proof, step.nowMs, step.freshChallenge);
    } else if request.Delete? {
      DeleteTakesTheReadKey(
        namer, verify, desk, request.queue, request.proof, request.blobId, step.nowMs, step.freshChallenge);
      ProvedMeansGranted(namer, verify, steps, i, queue, ToRead, 1, request.proof);
    } else {
      WriteTakesTheWriteKey(
        namer, verify, desk, request.queue, request.proof, request.blob, step.nowMs, step.freshChallenge);
      ProvedMeansGranted(namer, verify, steps, i, queue, ToWrite, 0, request.proof);
    }
  }
}
