/** What a relay answers, and how its challenges are spent. */
module RelayApi {
  import opened Words
  import opened RelayStore

  datatype Right = ToWrite | ToRead

  function RightByte(right: Right): byte {
    if right.ToWrite? then 0 else 1
  }

  type Challenge = Bytes32
  type Proof = Bytes64
  type Key = (QueueId, byte)
  type Outstanding = map<Key, Challenge>

  /** Whether a proof of a right verifies against a queue's keys; nothing is known of it. */
  type Verifier = (Registration, Right, Challenge, Proof) -> bool

  datatype Request =
    | Register(queue: QueueId, writePublic: Bytes32, readPublic: Bytes32)
    | ChallengeRequest(queue: QueueId, right: Right)
    | Write(queue: QueueId, proof: Proof, blob: seq<byte>)
    | Read(queue: QueueId, proof: Proof)
    | Delete(queue: QueueId, proof: Proof, blobId: BlobId)

  datatype Response =
    | Challenged(challenge: Challenge)
    | Blob(blobId: BlobId, blob: seq<byte>)
    | Done
    | Empty
    | Refused(refusal: Refusal)

  // The specification: a relay as a value.

  datatype Desk = Desk(queues: Queues, challenges: Outstanding)

  /** The right a request has to prove, if it has to. */
  function RightOf(request: Request): Option<Right> {
    if request.Write? then Some(ToWrite)
    else if request.Read? || request.Delete? then Some(ToRead)
    else Option.None
  }

  function KeyOf(queue: QueueId, right: Right): Key {
    (queue, RightByte(right))
  }

  /** Whether a proof is good; the first thing missing, if something is. */
  function SpendVerdict(verify: Verifier, desk: Desk, queue: QueueId, right: Right, proof: Proof): Result<(), Refusal> {
    if queue !in desk.queues then Err(UnknownQueue)
    else if KeyOf(queue, right) !in desk.challenges then Err(UnknownChallenge)
    else if verify(desk.queues[queue].registration, right, desk.challenges[KeyOf(queue, right)], proof) then Ok(())
    else Err(BadProof)
  }

  /** The challenges after a proof: the one it answers is gone, however good it was. */
  function ChallengesAfterSpending(desk: Desk, queue: QueueId, right: Right): Outstanding {
    if queue !in desk.queues then desk.challenges else desk.challenges - {KeyOf(queue, right)}
  }

  /** What the store does for a request that needs no proof or has proved its right. */
  function StoreEvent(request: Request, nowMs: u64): Option<Event> {
    match request
    case Register(queue, w, r) => Some(Event.Register(queue, Registration(w, r), nowMs))
    case Write(queue, _, blob) => Some(Event.Write(queue, blob, nowMs))
    case Delete(queue, _, id) => Some(Event.Delete(queue, id))
    case _ => Option.None
  }

  /** The event a request leaves in the store's log. */
  function EventOf(verify: Verifier, desk: Desk, request: Request, nowMs: u64): Option<Event> {
    var right := RightOf(request);
    if right.None? || SpendVerdict(verify, desk, request.queue, right.value, request.proof).Ok? then
      StoreEvent(request, nowMs)
    else Option.None
  }

  function QueuesAfter(namer: Namer, verify: Verifier, desk: Desk, request: Request, nowMs: u64): Queues {
    var event := EventOf(verify, desk, request, nowMs);
    if event.Some? then Apply(namer, desk.queues, event.value) else desk.queues
  }

  function ChallengesAfter(desk: Desk, request: Request, freshChallenge: Challenge): Outstanding {
    if request.ChallengeRequest? then
      if request.queue in desk.queues then desk.challenges[KeyOf(request.queue, request.right) := freshChallenge]
      else desk.challenges
    else if RightOf(request).Some? then ChallengesAfterSpending(desk, request.queue, RightOf(request).value)
    else desk.challenges
  }

  function Reported<T>(r: Result<T, Refusal>): Response {
    if r.Ok? then Done else Refused(r.error)
  }

  function ResponseOf(
    namer: Namer, verify: Verifier, desk: Desk, request: Request, freshChallenge: Challenge): Response
  {
    if request.Register? then Done
    else if request.ChallengeRequest? then
      if request.queue in desk.queues then Challenged(freshChallenge) else Refused(UnknownQueue)
    else
      var proved := SpendVerdict(verify, desk, request.queue, RightOf(request).value, request.proof);
      if proved.Err? then Refused(proved.error)
      else if request.Write? then
        Reported(WriteVerdict(namer, desk.queues, request.queue, request.blob))
      else if request.Read? then
        var blobs := desk.queues[request.queue].blobs;
        if blobs == [] then Empty else Response.Blob(blobs[0].id, blobs[0].bytes)
      else Done
  }

  // The relay as it runs.

  class Challenges {
    var outstanding: Outstanding

    constructor ()
      ensures outstanding == map[]
    {
      outstanding := map[];
    }

    method Insert(key: Key, challenge: Challenge)
      modifies this
      ensures outstanding == old(outstanding)[key := challenge]
    {
      outstanding := outstanding[key := challenge];
    }

    method Remove(key: Key) returns (challenge: Option<Challenge>)
      modifies this
      ensures challenge == if key in old(outstanding) then Some(old(outstanding)[key]) else None
      ensures outstanding == old(outstanding) - {key}
    {
      challenge := if key in outstanding then Some(outstanding[key]) else None;
      outstanding := outstanding - {key};
    }
  }

  /** Takes the outstanding challenge, then checks the proof against it. */
  method Spend(verify: Verifier, store: Store, challenges: Challenges, queue: QueueId, right: Right, proof: Proof)
    returns (r: Result<(), Refusal>)
    modifies challenges
    ensures var desk := old(Desk(store.queues, challenges.outstanding));
            && r == SpendVerdict(verify, desk, queue, right, proof)
            && challenges.outstanding == ChallengesAfterSpending(desk, queue, right)
  {
    var registration := store.RegistrationOf(queue);
    if registration.None? {
      return Err(UnknownQueue);
    }
    var challenge := challenges.Remove(KeyOf(queue, right));
    if challenge.None? {
      return Err(UnknownChallenge);
    }
    r := if verify(registration.value, right, challenge.value, proof) then Ok(()) else Err(BadProof);
  }

  method Handle(
    verify: Verifier, store: Store, challenges: Challenges, request: Request, nowMs: u64, freshChallenge: Challenge)
    returns (response: Response)
    modifies store, challenges
    ensures var desk := old(Desk(store.queues, challenges.outstanding));
            && response == ResponseOf(store.namer, verify, desk, request, freshChallenge)
            && store.queues == QueuesAfter(store.namer, verify, desk, request, nowMs)
            && challenges.outstanding == ChallengesAfter(desk, request, freshChallenge)
  {
    match request
    case Register(queue, writePublic, readPublic) =>
      store.Register(queue, Registration(writePublic, readPublic), nowMs);
      response := Done;
    case ChallengeRequest(queue, right) =>
      if store.RegistrationOf(queue).None? {
        return Refused(UnknownQueue);
      }
      challenges.Insert(KeyOf(queue, right), freshChallenge);
      response := Challenged(freshChallenge);
    case Write(queue, proof, blob) =>
      var spent := Spend(verify, store, challenges, queue, ToWrite, proof);
      if spent.Err? {
        return Refused(spent.error);
      }
      var written := store.Write(queue, blob, nowMs);
      response := Reported(written);
    case Read(queue, proof) =>
      var spent := Spend(verify, store, challenges, queue, ToRead, proof);
      if spent.Err? {
        return Refused(spent.error);
      }
      var oldest := store.Read(queue);
      response := if oldest.Some? then Response.Blob(oldest.value.id, oldest.value.bytes) else Empty;
    case Delete(queue, proof, blobId) =>
      var spent := Spend(verify, store, challenges, queue, ToRead, proof);
      if spent.Err? {
        return Refused(spent.error);
      }
      var deleted := store.Delete(queue, blobId);
      response := Reported(deleted);
  }
}
