/** What a relay holds: queues of opaque blobs, with their limits and expiry. */
module RelayStore {
  import opened Words

  const MAX_BLOB_LEN: nat := 64 * 1024
  const MAX_QUEUE_LEN: nat := 16 * 1024 * 1024
  const DAY_MS: u64 := 24 * 60 * 60 * 1000
  const BLOB_LIFE: u64 := 30 * DAY_MS
  const QUEUE_LIFE: u64 := 60 * DAY_MS

  type QueueId = Bytes32
  type BlobId = Bytes32

  /** How blobs are named: a hash of the blob, of which nothing is assumed. */
  type Namer = seq<byte> -> BlobId

  datatype Refusal = UnknownQueue | BadProof | TooLarge | QueueFull | UnknownChallenge

  datatype Registration = Registration(writePublic: Bytes32, readPublic: Bytes32)

  datatype Blob = Blob(id: BlobId, bytes: seq<byte>, writtenMs: u64)

  datatype Queue = Queue(registration: Registration, blobs: seq<Blob>, lastWriteMs: u64)

  type Queues = map<QueueId, Queue>

  // What each operation does to the queues.

  datatype Event =
    | Register(queue: QueueId, registration: Registration, nowMs: u64)
    | Write(queue: QueueId, blob: seq<byte>, nowMs: u64)
    | Delete(queue: QueueId, id: BlobId)
    | Expire(nowMs: u64)

  /** Bytes held in all blobs of a queue. */
  function Load(blobs: seq<Blob>): nat {
    if blobs == [] then 0 else Load(blobs[..|blobs| - 1]) + |blobs[|blobs| - 1].bytes|
  }

  function WriteVerdict(namer: Namer, queues: Queues, queue: QueueId, blob: seq<byte>): Result<BlobId, Refusal> {
    if |blob| > MAX_BLOB_LEN then Err(TooLarge)
    else if queue !in queues then Err(UnknownQueue)
    else if Load(queues[queue].blobs) + |blob| > MAX_QUEUE_LEN then Err(QueueFull)
    else Ok(namer(blob))
  }

  /** Whether a blob outlives an expiry at this time. */
  predicate Fresh(blob: Blob, nowMs: u64) {
    SatAdd(blob.writtenMs, BLOB_LIFE) >= nowMs
  }

  predicate Alive(queue: Queue, nowMs: u64) {
    SatAdd(queue.lastWriteMs, QUEUE_LIFE) >= nowMs
  }

  /** `Vec::retain`. */
  function Retain(blobs: seq<Blob>, keep: Blob -> bool): seq<Blob> {
    if blobs == [] then []
    else
      var init, last := Retain(blobs[..|blobs| - 1], keep), blobs[|blobs| - 1];
      if keep(last) then init + [last] else init
  }

  function Without(blobs: seq<Blob>, id: BlobId): seq<Blob> {
    Retain(blobs, (b: Blob) => b.id != id)
  }

  function FreshOnly(blobs: seq<Blob>, nowMs: u64): seq<Blob> {
    Retain(blobs, (b: Blob) => Fresh(b, nowMs))
  }

  function Apply(namer: Namer, queues: Queues, event: Event): Queues {
    match event
    case Register(queue, registration, nowMs) =>
      if queue in queues then queues else queues[queue := Queue(registration, [], nowMs)]
    case Write(queue, blob, nowMs) =>
      var verdict := WriteVerdict(namer, queues, queue, blob);
      if verdict.Err? then queues
      else
        var held := queues[queue];
        queues[queue := Queue(held.registration, held.blobs + [Blob(verdict.value, blob, nowMs)], nowMs)]
    case Delete(queue, id) =>
      if queue !in queues then queues
      else queues[queue := queues[queue].(blobs := Without(queues[queue].blobs, id))]
    case Expire(nowMs) =>
      map queue | queue in queues && Alive(queues[queue], nowMs)
        :: queues[queue].(blobs := FreshOnly(queues[queue].blobs, nowMs))
  }

  class Store {
    const namer: Namer
    var queues: Queues

    constructor (namer: Namer)
      ensures this.namer == namer && queues == map[]
    {
      this.namer, queues := namer, map[];
    }

    method Register(queue: QueueId, registration: Registration, nowMs: u64)
      modifies this
      ensures queues == Apply(namer, old(queues), Event.Register(queue, registration, nowMs))
    {
      if queue !in queues {
        queues := queues[queue := Queue(registration, [], nowMs)];
      }
    }

    function RegistrationOf(queue: QueueId): Option<Registration>
      reads this
    {
      if queue in queues then Some(queues[queue].registration) else Option.None
    }

    method Write(queue: QueueId, blob: seq<byte>, nowMs: u64) returns (r: Result<BlobId, Refusal>)
      modifies this
      ensures r == WriteVerdict(namer, old(queues), queue, blob)
      ensures queues == Apply(namer, old(queues), Event.Write(queue, blob, nowMs))
    {
      if |blob| > MAX_BLOB_LEN {
        return Err(TooLarge);
      }
      if queue !in queues {
        return Err(UnknownQueue);
      }
      var held := queues[queue];
      if Load(held.blobs) + |blob| > MAX_QUEUE_LEN {
        return Err(QueueFull);
      }
      var id := namer(blob);
      held := held.(blobs := held.blobs + [Blob(id, blob, nowMs)]);
      held := held.(lastWriteMs := nowMs);
      queues := queues[queue := held];
      r := Ok(id);
    }

    /** The oldest blob, without removing it. */
    function Read(queue: QueueId): Option<Blob>
      reads this
    {
      if queue in queues && queues[queue].blobs != [] then Some(queues[queue].blobs[0]) else Option.None
    }

    method Delete(queue: QueueId, id: BlobId) returns (r: Result<(), Refusal>)
      modifies this
      ensures r == if queue in old(queues) then Ok(()) else Err(UnknownQueue)
      ensures queues == Apply(namer, old(queues), Event.Delete(queue, id))
    {
      if queue !in queues {
        return Err(UnknownQueue);
      }
      queues := queues[queue := queues[queue].(blobs := Without(queues[queue].blobs, id))];
      r := Ok(());
    }

    method Expire(nowMs: u64)
      modifies this
      ensures queues == Apply(namer, old(queues), Event.Expire(nowMs))
    {
      queues := map queue | queue in queues :: queues[queue].(blobs := FreshOnly(queues[queue].blobs, nowMs));
      queues := map queue | queue in queues && Alive(queues[queue], nowMs) :: queues[queue];
    }
  }
}
