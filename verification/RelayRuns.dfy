/** Whole runs of a relay: where its challenges go, and what its store comes to. */
module RelayRuns {
  import opened Words
  import opened RelayStore
  import opened RelayLog
  import opened RelayApi

  datatype Step = Asked(request: Request, nowMs: u64, freshChallenge: Challenge) | Expired(nowMs: u64)

  function StepEvent(verify: Verifier, desk: Desk, step: Step): Option<Event> {
    if step.Expired? then Some(Expire(step.nowMs)) else EventOf(verify, desk, step.request, step.nowMs)
  }

  function DeskStep(namer: Namer, verify: Verifier, desk: Desk, step: Step): Desk {
    if step.Expired? then Desk(Apply(namer, desk.queues, Expire(step.nowMs)), desk.challenges)
    else Desk(QueuesAfter(namer, verify, desk, step.request, step.nowMs),
              ChallengesAfter(desk, step.request, step.freshChallenge))
  }

  /** The relay after the first `n` steps, from empty. */
  function DeskAfter(namer: Namer, verify: Verifier, steps: seq<Step>, n: nat): Desk
    requires n <= |steps|
  {
    if n == 0 then Desk(map[], map[]) else DeskStep(namer, verify, DeskAfter(namer, verify, steps, n - 1), steps[n - 1])
  }

  // Challenges.

  /** The challenge a step hands out for a queue and right. */
  function Granted(desk: Desk, step: Step, key: Key): Option<Challenge> {
    if step.Asked? && step.request.ChallengeRequest? && step.request.queue in desk.queues
       && KeyOf(step.request.queue, step.request.right) == key
    then Some(step.freshChallenge)
    else Option.None
  }

  /** The challenge a step checks a proof against, good or bad. */
  function Checked(desk: Desk, step: Step, key: Key): Option<Challenge> {
    if step.Asked? && RightOf(step.request).Some? && step.request.queue in desk.queues
       && KeyOf(step.request.queue, RightOf(step.request).value) == key && key in desk.challenges
    then Some(desk.challenges[key])
    else Option.None
  }

  function GrantedAt(namer: Namer, verify: Verifier, steps: seq<Step>, key: Key, i: nat): Option<Challenge>
    requires i < |steps|
  {
    Granted(DeskAfter(namer, verify, steps, i), steps[i], key)
  }

  function CheckedAt(namer: Namer, verify: Verifier, steps: seq<Step>, key: Key, i: nat): Option<Challenge>
    requires i < |steps|
  {
    Checked(DeskAfter(namer, verify, steps, i), steps[i], key)
  }

  function AnswerAt(namer: Namer, verify: Verifier, steps: seq<Step>, i: nat): Response
    requires i < |steps| && steps[i].Asked?
  {
    ResponseOf(namer, verify, DeskAfter(namer, verify, steps, i), steps[i].request, steps[i].freshChallenge)
  }

  function Get(challenges: Outstanding, key: Key): Option<Challenge> {
    if key in challenges then Some(challenges[key]) else Option.None
  }

  /** What one step does to the challenge of one queue and right. */
  lemma ChallengeStep(namer: Namer, verify: Verifier, desk: Desk, step: Step, key: Key)
    ensures Get(DeskStep(namer, verify, desk, step).challenges, key)
         == if Granted(desk, step, key).Some? then Granted(desk, step, key)
            else if Checked(desk, step, key).Some? then None
            else Get(desk.challenges, key)
  {
  }

  /** The grant an outstanding challenge comes from: the latest, and not yet checked against. */
  ghost predicate ComesFrom(
    namer: Namer, verify: Verifier, steps: seq<Step>, key: Key, n: nat, challenge: Challenge, g: nat)
    requires g < n <= |steps|
  {
    && GrantedAt(namer, verify, steps, key, g) == Some(challenge)
    && forall j :: g < j < n ==>
         GrantedAt(namer, verify, steps, key, j).None? && CheckedAt(namer, verify, steps, key, j).None?
  }

  lemma {:induction false} OutstandingComesFrom(
    namer: Namer, verify: Verifier, steps: seq<Step>, key: Key, n: nat) returns (g: nat)
    requires n <= |steps| && key in DeskAfter(namer, verify, steps, n).challenges
    ensures g < n
    ensures ComesFrom(namer, verify, steps, key, n, DeskAfter(namer, verify, steps, n).challenges[key], g)
  {
    var before := DeskAfter(namer, verify, steps, n - 1);
    ChallengeStep(namer, verify, before, steps[n - 1], key);
    assert Get(DeskAfter(namer, verify, steps, n).challenges, key).Some?;
    if GrantedAt(namer, verify, steps, key, n - 1).Some? {
      g := n - 1;
    } else {
      g := OutstandingComesFrom(namer, verify, steps, key, n - 1);
    }
  }

  /**
   * Every check has a grant of its own: it is made against the challenge most
   * recently granted for that queue and right, and nothing was checked against
   * that challenge before.
   */
  lemma EachCheckHasItsGrant(namer: Namer, verify: Verifier, steps: seq<Step>, key: Key, i: nat)
    requires i < |steps| && CheckedAt(namer, verify, steps, key, i).Some?
    ensures exists g :: 0 <= g < i
                        && ComesFrom(namer, verify, steps, key, i, CheckedAt(namer, verify, steps, key, i).value, g)
  {
    var g := OutstandingComesFrom(namer, verify, steps, key, i);
  }

  /** Between two checks for one queue and right there is a grant. */
  lemma GrantBetweenChecks(namer: Namer, verify: Verifier, steps: seq<Step>, key: Key, i: nat, k: nat)
    requires i < k < |steps|
    requires CheckedAt(namer, verify, steps, key, i).Some? && CheckedAt(namer, verify, steps, key, k).Some?
    ensures exists g :: i < g < k && GrantedAt(namer, verify, steps, key, g).Some?
  {
    var g := OutstandingComesFrom(namer, verify, steps, key, k);
    assert g != i;
  }

  function Grants(namer: Namer, verify: Verifier, steps: seq<Step>, key: Key, n: nat): nat
    requires n <= |steps|
  {
    if n == 0 then 0
    else Grants(namer, verify, steps, key, n - 1) + if GrantedAt(namer, verify, steps, key, n - 1).Some? then 1 else 0
  }

  function Checks(namer: Namer, verify: Verifier, steps: seq<Step>, key: Key, n: nat): nat
    requires n <= |steps|
  {
    if n == 0 then 0
    else Checks(namer, verify, steps, key, n - 1) + if CheckedAt(namer, verify, steps, key, n - 1).Some? then 1 else 0
  }

  /** Proofs checked never outnumber challenges granted, with one to spare while one is outstanding. */
  lemma {:induction false} ChecksNeverOutnumberGrants(
    namer: Namer, verify: Verifier, steps: seq<Step>, key: Key, n: nat)
    requires n <= |steps|
    ensures Checks(namer, verify, steps, key, n)
              + (if key in DeskAfter(namer, verify, steps, n).challenges then 1 else 0)
         <= Grants(namer, verify, steps, key, n)
  {
    if n > 0 {
      ChecksNeverOutnumberGrants(namer, verify, steps, key, n - 1);
      var before := DeskAfter(namer, verify, steps, n - 1);
      ChallengeStep(namer, verify, before, steps[n - 1], key);
      assert key in DeskAfter(namer, verify, steps, n).challenges
        <==> Get(DeskAfter(namer, verify, steps, n).challenges, key).Some?;
    }
  }

  // Challenges and the queues they are for.

  /** The step that created the queue there is, if there is one. */
  function BornAt(namer: Namer, verify: Verifier, steps: seq<Step>, queue: QueueId, n: nat): (b: Option<nat>)
    requires n <= |steps|
    ensures b.Some? <==> queue in DeskAfter(namer, verify, steps, n).queues
    ensures b.Some? ==> b.value < n && queue !in DeskAfter(namer, verify, steps, b.value).queues
  {
    if queue !in DeskAfter(namer, verify, steps, n).queues then Option.None
    else if queue !in DeskAfter(namer, verify, steps, n - 1).queues then Some(n - 1)
    else BornAt(namer, verify, steps, queue, n - 1)
  }

  /** A challenge stays outstanding from its grant on, as long as nothing is granted or checked. */
  lemma {:induction false} StillOutstanding(
    namer: Namer, verify: Verifier, steps: seq<Step>, key: Key, i: nat, challenge: Challenge, g: nat, n: nat)
    requires g < n <= i <= |steps| && ComesFrom(namer, verify, steps, key, i, challenge, g)
    ensures Get(DeskAfter(namer, verify, steps, n).challenges, key) == Some(challenge)
  {
    ChallengeStep(namer, verify, DeskAfter(namer, verify, steps, n - 1), steps[n - 1], key);
    if n - 1 > g {
      StillOutstanding(namer, verify, steps, key, i, challenge, g, n - 1);
      assert GrantedAt(namer, verify, steps, key, n - 1).None? && CheckedAt(namer, verify, steps, key, n - 1).None?;
    }
  }

  /**
   * A proof may be checked against a challenge granted to an earlier queue of
   * the same name: expiry takes the queue and leaves its challenges. It is so
   * exactly when a challenge was still outstanding as the queue was registered
   * again, and none has been granted since.
   */
  lemma GrantIsOlderThanItsQueueWhen(
    namer: Namer, verify: Verifier, steps: seq<Step>, queue: QueueId, right: Right, i: nat,
    challenge: Challenge, g: nat)
    requires g < i <= |steps| && ComesFrom(namer, verify, steps, KeyOf(queue, right), i, challenge, g)
    requires queue in DeskAfter(namer, verify, steps, i).queues
    ensures var key, b := KeyOf(queue, right), BornAt(namer, verify, steps, queue, i).value;
            g < b <==>
              && key in DeskAfter(namer, verify, steps, b).challenges
              && forall j :: b < j < i ==> GrantedAt(namer, verify, steps, key, j).None?
  {
    var key, b := KeyOf(queue, right), BornAt(namer, verify, steps, queue, i).value;
    assert GrantedAt(namer, verify, steps, key, g).Some?;
    assert GrantedAt(namer, verify, steps, key, b).None?;
    if g < b {
      StillOutstanding(namer, verify, steps, key, i, challenge, g, b);
    }
  }

  /** A run in which it is so: registered, granted, expired, registered with other keys, and checked. */
  lemma ChallengeOutlivesItsQueue(
    namer: Namer, verify: Verifier, queue: QueueId, before: Registration, after: Registration,
    challenge: Challenge, proof: Proof)
    ensures var late := 61 * DAY_MS;
            var steps := [
              Asked(Request.Register(queue, before.writePublic, before.readPublic), 0, challenge),
              Asked(ChallengeRequest(queue, ToRead), 0, challenge),
              Expired(late),
              Asked(Request.Register(queue, after.writePublic, after.readPublic), late, challenge),
              Asked(Read(queue, proof), late, challenge)];
            var key := KeyOf(queue, ToRead);
            && GrantedAt(namer, verify, steps, key, 1) == Some(challenge)
            && BornAt(namer, verify, steps, queue, 4) == Some(3)
            && CheckedAt(namer, verify, steps, key, 4) == Some(challenge)
            && AnswerAt(namer, verify, steps, 4)
               == if verify(after, ToRead, challenge, proof) then Empty else Refused(BadProof)
  {
    var late := 61 * DAY_MS;
    var steps := [
      Asked(Request.Register(queue, before.writePublic, before.readPublic), 0, challenge),
      Asked(ChallengeRequest(queue, ToRead), 0, challenge),
      Expired(late),
      Asked(Request.Register(queue, after.writePublic, after.readPublic), late, challenge),
      Asked(Read(queue, proof), late, challenge)];
    var granted: Outstanding := map[KeyOf(queue, ToRead) := challenge];
    assert DeskAfter(namer, verify, steps, 1) == Desk(map[queue := Queue(before, [], 0)], map[]);
    assert DeskAfter(namer, verify, steps, 2) == Desk(map[queue := Queue(before, [], 0)], granted);
    assert DeskAfter(namer, verify, steps, 3) == Desk(map[], granted);
    assert DeskAfter(namer, verify, steps, 4) == Desk(map[queue := Queue(after, [], late)], granted);
  }

  // The store.

  /** A log, with what a step adds to it. */
  function Logged(verify: Verifier, desk: Desk, step: Step, log: seq<Event>): seq<Event> {
    var event := StepEvent(verify, desk, step);
    if event.Some? then log + [event.value] else log
  }

  /** The log of the store over the first `n` steps. */
  function LogOf(namer: Namer, verify: Verifier, steps: seq<Step>, n: nat): seq<Event>
    requires n <= |steps|
  {
    if n == 0 then []
    else Logged(verify, DeskAfter(namer, verify, steps, n - 1), steps[n - 1], LogOf(namer, verify, steps, n - 1))
  }

  lemma {:induction false} AfterPrefix(namer: Namer, log: seq<Event>, more: seq<Event>, n: nat)
    requires n <= |log|
    ensures After(namer, log + more, n) == After(namer, log, n)
  {
    if n > 0 {
      AfterPrefix(namer, log, more, n - 1);
    }
  }

  lemma AfterPush(namer: Namer, log: seq<Event>, event: Event)
    ensures After(namer, log + [event], |log| + 1) == Apply(namer, After(namer, log, |log|), event)
  {
    AfterPrefix(namer, log, [event], |log|);
  }

  /** A step does to the queues what its event does, if it comes to one. */
  lemma QueuesStep(namer: Namer, verify: Verifier, desk: Desk, step: Step)
    ensures var event := StepEvent(verify, desk, step);
            DeskStep(namer, verify, desk, step).queues
              == if event.Some? then Apply(namer, desk.queues, event.value) else desk.queues
  {
  }

  /** A log that describes the queues before a step describes them after it, with the step's event. */
  lemma LogFollows(namer: Namer, verify: Verifier, desk: Desk, step: Step, log: seq<Event>)
    requires desk.queues == After(namer, log, |log|)
    ensures var more := Logged(verify, desk, step, log);
            DeskStep(namer, verify, desk, step).queues == After(namer, more, |more|)
  {
    QueuesStep(namer, verify, desk, step);
    var event := StepEvent(verify, desk, step);
    if event.Some? {
      AfterPush(namer, log, event.value);
    }
  }

  /** The queues of a relay are those its log describes. */
  lemma {:induction false} QueuesAreTheLogs(namer: Namer, verify: Verifier, steps: seq<Step>, n: nat)
    requires n <= |steps|
    ensures var log := LogOf(namer, verify, steps, n);
            DeskAfter(namer, verify, steps, n).queues == After(namer, log, |log|)
  {
    if n == 0 {
      return;
    }
    QueuesAreTheLogs(namer, verify, steps, n - 1);
    var desk, log := DeskAfter(namer, verify, steps, n - 1), LogOf(namer, verify, steps, n - 1);
    LogFollows(namer, verify, desk, steps[n - 1], log);
  }

  /**
   * A blob a relay hands out is the oldest surviving write of its queue, and
   * the request proved the right to read against the queue's own key and the
   * challenge last granted for it, never checked against before.
   */
  lemma {:induction false} BlobHandedOut(namer: Namer, verify: Verifier, steps: seq<Step>, i: nat)
    requires i < |steps| && steps[i].Asked?
    requires AnswerAt(namer, verify, steps, i).Blob?
    ensures steps[i].request.Read?
    ensures var queue := steps[i].request.queue;
            var log := LogOf(namer, verify, steps, i);
            var survivors := Survivors(namer, log, queue, |log|, |log|);
            survivors != []
            && AnswerAt(namer, verify, steps, i) == Response.Blob(survivors[0].id, survivors[0].bytes)
    ensures var queue, proof := steps[i].request.queue, steps[i].request.proof;
            var log := LogOf(namer, verify, steps, i);
            exists g, challenge :: 0 <= g < i
              && ComesFrom(namer, verify, steps, KeyOf(queue, ToRead), i, challenge, g)
              && Born(namer, log, queue, |log|).Some?
              && verify(log[Born(namer, log, queue, |log|).value].registration, ToRead, challenge, proof)
  {
    var desk := DeskAfter(namer, verify, steps, i);
    var queue := steps[i].request.queue;
    var log := LogOf(namer, verify, steps, i);
    QueuesAreTheLogs(namer, verify, steps, i);
    QueueIsItsSurvivors(namer, log, queue, |log|);
    var key := KeyOf(queue, ToRead);
    var g := OutstandingComesFrom(namer, verify, steps, key, i);
    assert ComesFrom(namer, verify, steps, key, i, desk.challenges[key], g);
  }
}
