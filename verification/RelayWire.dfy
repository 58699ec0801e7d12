/** Requests and responses as records, and what a relay can be brought to hold over the wire. */
module RelayWire {
  import opened Words
  import opened Framing
  import opened RelayStore
  import opened RelayLimits
  import opened RelayApi
  import opened RelayRuns

  const RELAY_VERSION: byte := 1

  const TYPE_REGISTER: byte := 0
  const TYPE_CHALLENGE_REQUEST: byte := 1
  const TYPE_CHALLENGE: byte := 2
  const TYPE_WRITE: byte := 3
  const TYPE_READ: byte := 4
  const TYPE_BLOB: byte := 5
  const TYPE_DELETE: byte := 6
  const TYPE_OK: byte := 7
  const TYPE_EMPTY: byte := 8
  const TYPE_REFUSED: byte := 9

  datatype WireError = Malformed

  datatype Body = Body(recordType: byte, payload: seq<byte>)

  function RequestBody(request: Request): Body {
    match request
    case Register(queue, writePublic, readPublic) => Body(TYPE_REGISTER, queue + writePublic + readPublic)
    case ChallengeRequest(queue, right) => Body(TYPE_CHALLENGE_REQUEST, queue + [RightByte(right)])
    case Write(queue, proof, blob) => Body(TYPE_WRITE, queue + proof + blob)
    case Read(queue, proof) => Body(TYPE_READ, queue + proof)
    case Delete(queue, proof, blobId) => Body(TYPE_DELETE, queue + proof + blobId)
  }

  function RefusalByte(refusal: Refusal): byte {
    match refusal
    case UnknownQueue => 0
    case BadProof => 1
    case TooLarge => 2
    case QueueFull => 3
    case UnknownChallenge => 4
  }

  function ResponseBody(response: Response): Body {
    match response
    case Challenged(challenge) => Body(TYPE_CHALLENGE, challenge)
    case Blob(blobId, blob) => Body(TYPE_BLOB, blobId + blob)
    case Done => Body(TYPE_OK, [])
    case Empty => Body(TYPE_EMPTY, [])
    case Refused(refusal) => Body(TYPE_REFUSED, [RefusalByte(refusal)])
  }

  function Encoded(body: Body): Result<seq<byte>, WireError> {
    if Written(RELAY_VERSION, body.recordType, body.payload).Ok? then
      Ok(Written(RELAY_VERSION, body.recordType, body.payload).value)
    else Err(Malformed)
  }

  function EncodedRequest(request: Request): Result<seq<byte>, WireError> {
    Encoded(RequestBody(request))
  }

  function EncodedResponse(response: Response): Result<seq<byte>, WireError> {
    Encoded(ResponseBody(response))
  }

  /** One record and nothing after it. */
  function SingleOf(bytes: seq<byte>): Result<Body, WireError> {
    if bytes == [] then Err(Malformed)
    else
      match NextOf(RELAY_VERSION, bytes)
      case Err(_) => Err(Malformed)
      case Ok(record) =>
        if bytes[HEADER_LEN + |record.payload|..] != [] then Err(Malformed)
        else Ok(Body(record.recordType, record.payload))
  }

  method Single(bytes: seq<byte>) returns (r: Result<Body, WireError>)
    ensures r == SingleOf(bytes)
  {
    var reader := new Reader(bytes, RELAY_VERSION);
    var first := reader.Next();
    if first.None? || first.value.Err? {
      return Err(Malformed);
    }
    var second := reader.Next();
    if second.Some? {
      return Err(Malformed);
    }
    r := Ok(Body(first.value.value.recordType, first.value.value.payload));
  }

  function RequestOf(body: Body): Result<Request, WireError> {
    var p := body.payload;
    if body.recordType == TYPE_REGISTER then
      if |p| != 96 then Err(Malformed) else Ok(Request.Register(p[0..32], p[32..64], p[64..96]))
    else if body.recordType == TYPE_CHALLENGE_REQUEST then
      if |p| != 33 then Err(Malformed)
      else if p[32] == 0 then Ok(ChallengeRequest(p[0..32], ToWrite))
      else if p[32] == 1 then Ok(ChallengeRequest(p[0..32], ToRead))
      else Err(Malformed)
    else if body.recordType == TYPE_WRITE then
      if |p| < 96 then Err(Malformed) else Ok(Request.Write(p[0..32], p[32..96], p[96..]))
    else if body.recordType == TYPE_READ then
      if |p| != 96 then Err(Malformed) else Ok(Read(p[0..32], p[32..96]))
    else if body.recordType == TYPE_DELETE then
      if |p| != 128 then Err(Malformed) else Ok(Request.Delete(p[0..32], p[32..96], p[96..128]))
    else Err(Malformed)
  }

  function ResponseOfBody(body: Body): Result<Response, WireError> {
    var p := body.payload;
    if body.recordType == TYPE_CHALLENGE then
      if |p| != 32 then Err(Malformed) else Ok(Challenged(p[0..32]))
    else if body.recordType == TYPE_BLOB then
      if |p| < 32 then Err(Malformed) else Ok(Response.Blob(p[0..32], p[32..]))
    else if body.recordType == TYPE_OK then
      if |p| != 0 then Err(Malformed) else Ok(Done)
    else if body.recordType == TYPE_EMPTY then
      if |p| != 0 then Err(Malformed) else Ok(Empty)
    else if body.recordType == TYPE_REFUSED then
      if |p| != 1 then Err(Malformed)
      else if p[0] == 0 then Ok(Refused(UnknownQueue))
      else if p[0] == 1 then Ok(Refused(BadProof))
      else if p[0] == 2 then Ok(Refused(TooLarge))
      else if p[0] == 3 then Ok(Refused(QueueFull))
      else if p[0] == 4 then Ok(Refused(UnknownChallenge))
      else Err(Malformed)
    else Err(Malformed)
  }

  function DecodedRequest(bytes: seq<byte>): Result<Request, WireError> {
    var body :- SingleOf(bytes);
    RequestOf(body)
  }

  function DecodedResponse(bytes: seq<byte>): Result<Response, WireError> {
    var body :- SingleOf(bytes);
    ResponseOfBody(body)
  }

  // Each is the inverse of the other.

  lemma SingleIsEncoded(bytes: seq<byte>, body: Body)
    ensures SingleOf(bytes) == Ok(body) <==> Encoded(body) == Ok(bytes)
  {
    if SingleOf(bytes) == Ok(body) {
      NextIsFramed(RELAY_VERSION, bytes);
      var record := NextOf(RELAY_VERSION, bytes).value;
      assert Framed(record) + [] == Framed(record);
    }
    if Encoded(body) == Ok(bytes) {
      var record := Record(RELAY_VERSION, body.recordType, body.payload);
      FramedIsNext(record, []);
      assert Framed(record) + [] == Framed(record);
    }
  }

  lemma RequestBodyInverts(body: Body, request: Request)
    ensures RequestOf(body) == Ok(request) <==> RequestBody(request) == body
  {
    var p := body.payload;
    if RequestOf(body) == Ok(request) {
      RequestBodyRebuilt(body);
    }
    if RequestBody(request) == body {
      RequestFieldsFound(request);
    }
  }

  lemma RequestBodyRebuilt(body: Body)
    requires RequestOf(body).Ok?
    ensures RequestBody(RequestOf(body).value) == body
  {
    var p := body.payload;
    if body.recordType == TYPE_CHALLENGE_REQUEST {
      assert p == p[0..32] + [p[32]];
    } else if body.recordType == TYPE_REGISTER {
      assert p == p[0..32] + p[32..64] + p[64..96];
    } else if body.recordType == TYPE_WRITE {
      assert p == p[0..32] + p[32..96] + p[96..];
    } else if body.recordType == TYPE_READ {
      assert p == p[0..32] + p[32..96];
    } else {
      assert p == p[0..32] + p[32..96] + p[96..128];
    }
  }

  lemma RequestFieldsFound(request: Request)
    ensures RequestOf(RequestBody(request)) == Ok(request)
  {
    var p := RequestBody(request).payload;
    assert p[0..32] == request.queue;
    if request.Register? {
      assert p[32..64] == request.writePublic && p[64..96] == request.readPublic;
    } else if request.Write? {
      assert p[32..96] == request.proof && p[96..] == request.blob;
    } else if request.Read? {
      assert p[32..96] == request.proof;
    } else if request.Delete? {
      assert p[32..96] == request.proof && p[96..128] == request.blobId;
    }
  }

  lemma ResponseBodyInverts(body: Body, response: Response)
    ensures ResponseOfBody(body) == Ok(response) <==> ResponseBody(response) == body
  {
    var p := body.payload;
    if ResponseOfBody(body) == Ok(response) {
      if body.recordType == TYPE_CHALLENGE {
        assert p == p[0..32];
      } else if body.recordType == TYPE_BLOB {
        assert p == p[0..32] + p[32..];
      } else if body.recordType == TYPE_REFUSED {
        assert p == [p[0]];
      }
    }
    if ResponseBody(response) == body {
      if response.Challenged? {
        assert p[0..32] == response.challenge;
      } else if response.Blob? {
        assert p[0..32] == response.blobId && p[32..] == response.blob;
      }
    }
  }

  /** A byte string reads as a request exactly when the request is written as that byte string. */
  lemma RequestWireInverse(bytes: seq<byte>, request: Request)
    ensures DecodedRequest(bytes) == Ok(request) <==> EncodedRequest(request) == Ok(bytes)
  {
    SingleIsEncoded(bytes, RequestBody(request));
    if SingleOf(bytes).Ok? {
      RequestBodyInverts(SingleOf(bytes).value, request);
    }
    RequestBodyInverts(RequestBody(request), request);
  }

  lemma ResponseWireInverse(bytes: seq<byte>, response: Response)
    ensures DecodedResponse(bytes) == Ok(response) <==> EncodedResponse(response) == Ok(bytes)
  {
    SingleIsEncoded(bytes, ResponseBody(response));
    if SingleOf(bytes).Ok? {
      ResponseBodyInverts(SingleOf(bytes).value, response);
    }
    ResponseBodyInverts(ResponseBody(response), response);
  }

  // Runs over the wire.

  /** Every request of the run was read from some bytes. */
  ghost predicate OverTheWire(steps: seq<Step>) {
    forall i :: 0 <= i < |steps| && steps[i].Asked? ==> exists bytes :: DecodedRequest(bytes) == Ok(steps[i].request)
  }

  /** The longest blob a write request has room for. */
  const LONGEST_BLOB: nat := MAX_PAYLOAD_LEN - 96

  predicate BlobsFit(queues: Queues) {
    forall q, b :: q in queues && b in queues[q].blobs ==> |b.bytes| <= LONGEST_BLOB
  }

  lemma ApplyKeepsFit(namer: Namer, queues: Queues, event: Event)
    requires BlobsFit(queues)
    requires event.Write? ==> |event.blob| <= LONGEST_BLOB
    ensures BlobsFit(Apply(namer, queues, event))
  {
    var next := Apply(namer, queues, event);
    forall q, b | q in next && b in next[q].blobs ensures |b.bytes| <= LONGEST_BLOB {
      if event.Delete? && q == event.queue {
        RetainIsPart(queues[q].blobs, (c: RelayStore.Blob) => c.id != event.id);
      } else if event.Expire? {
        RetainIsPart(queues[q].blobs, (c: RelayStore.Blob) => RelayStore.Fresh(c, event.nowMs));
      }
    }
  }

  lemma StepKeepsFit(namer: Namer, verify: Verifier, desk: Desk, step: Step)
    requires BlobsFit(desk.queues)
    requires step.Asked? && step.request.Write? ==> |step.request.blob| <= LONGEST_BLOB
    ensures BlobsFit(DeskStep(namer, verify, desk, step).queues)
  {
    QueuesStep(namer, verify, desk, step);
    var event := StepEvent(verify, desk, step);
    if event.Some? {
      ApplyKeepsFit(namer, desk.queues, event.value);
    }
  }

  /** No write of the run is longer than a record allows. */
  predicate WritesFit(steps: seq<Step>) {
    forall i :: 0 <= i < |steps| && steps[i].Asked? && steps[i].request.Write? ==>
      |steps[i].request.blob| <= LONGEST_BLOB
  }

  lemma WireWritesFit(steps: seq<Step>)
    requires OverTheWire(steps)
    ensures WritesFit(steps)
  {
    forall i | 0 <= i < |steps| && steps[i].Asked? && steps[i].request.Write?
      ensures |steps[i].request.blob| <= LONGEST_BLOB
    {
      WireBlobFits(steps[i].request);
    }
  }

  lemma {:induction false} FittingWritesFit(namer: Namer, verify: Verifier, steps: seq<Step>, n: nat)
    requires n <= |steps| && WritesFit(steps)
    ensures BlobsFit(DeskAfter(namer, verify, steps, n).queues)
  {
    if n > 0 {
      FittingWritesFit(namer, verify, steps, n - 1);
      StepKeepsFit(namer, verify, DeskAfter(namer, verify, steps, n - 1), steps[n - 1]);
    }
  }

  /** Over the wire no blob gets in that is longer than a write request has room for. */
  lemma {:induction false} StoredBlobsFit(namer: Namer, verify: Verifier, steps: seq<Step>, n: nat)
    requires n <= |steps| && OverTheWire(steps)
    ensures BlobsFit(DeskAfter(namer, verify, steps, n).queues)
  {
    WireWritesFit(steps);
    FittingWritesFit(namer, verify, steps, n);
  }

  lemma WireBlobFits(request: Request)
    requires request.Write? && exists bytes :: DecodedRequest(bytes) == Ok(request)
    ensures |request.blob| <= LONGEST_BLOB
  {
    var bytes :| DecodedRequest(bytes) == Ok(request);
    RequestWireInverse(bytes, request);
    assert |RequestBody(request).payload| == 96 + |request.blob|;
  }

  /** A response fits a record exactly when it is no blob longer than a record less its name. */
  lemma ResponseFits(response: Response)
    ensures EncodedResponse(response).Ok? <==> !(response.Blob? && |response.blob| > MAX_PAYLOAD_LEN - 32)
  {
  }

  /**
   * In any state, the answer to a request cannot be written exactly when it is
   * a read with a good proof from a queue whose oldest blob is longer than a
   * record less its name.
   */
  lemma AnswerDoesNotFitWhen(
    namer: Namer, verify: Verifier, desk: Desk, request: Request, freshChallenge: Challenge)
    ensures EncodedResponse(ResponseOf(namer, verify, desk, request, freshChallenge)).Err?
       <==> && request.Read?
            && SpendVerdict(verify, desk, request.queue, ToRead, request.proof).Ok?
            && desk.queues[request.queue].blobs != []
            && |desk.queues[request.queue].blobs[0].bytes| > MAX_PAYLOAD_LEN - 32
  {
    ResponseFits(ResponseOf(namer, verify, desk, request, freshChallenge));
  }

  /** Longer than any response can carry, and yet no longer than the store takes. */
  predicate StoredButUnsendable(blob: seq<byte>) {
    MAX_PAYLOAD_LEN - 32 < |blob| <= MAX_BLOB_LEN
  }

  /** Such a blob is taken into an empty queue, and the next read of the queue has no answer. */
  lemma WrittenButNotReadable(
    namer: Namer, verify: Verifier, desk: Desk, write: Request, read: Request, nowMs: u64, freshChallenge: Challenge)
    requires write.Write? && read.Read? && read.queue == write.queue && StoredButUnsendable(write.blob)
    requires write.queue in desk.queues && desk.queues[write.queue].blobs == []
    requires SpendVerdict(verify, desk, write.queue, ToWrite, write.proof).Ok?
    requires SpendVerdict(verify, desk, read.queue, ToRead, read.proof).Ok?
    ensures ResponseOf(namer, verify, desk, write, freshChallenge) == Done
    ensures var next := DeskStep(namer, verify, desk, Asked(write, nowMs, freshChallenge));
            EncodedResponse(ResponseOf(namer, verify, next, read, freshChallenge)).Err?
  {
    var next := DeskStep(namer, verify, desk, Asked(write, nowMs, freshChallenge));
    assert KeyOf(write.queue, ToRead) != KeyOf(write.queue, ToWrite);
    assert next.queues[write.queue].blobs == [RelayStore.Blob(namer(write.blob), write.blob, nowMs)];
    AnswerDoesNotFitWhen(namer, verify, next, read, freshChallenge);
  }

  /** A run of five requests from an empty relay that ends so, with any proofs that verify. */
  lemma UnsendableFromEmpty(
    namer: Namer, verify: Verifier, w: Bytes32, r: Bytes32, write: Request, read: Request, challenge: Challenge)
    requires write.Write? && read.Read? && read.queue == write.queue && StoredButUnsendable(write.blob)
    requires verify(Registration(w, r), ToWrite, challenge, write.proof)
    requires verify(Registration(w, r), ToRead, challenge, read.proof)
    ensures var q := write.queue;
            var requests := [Request.Register(q, w, r), ChallengeRequest(q, ToWrite), ChallengeRequest(q, ToRead),
                             write, read];
            var steps := seq(5, i requires 0 <= i < 5 => Asked(requests[i], 0, challenge));
            && ResponseOf(namer, verify, DeskAfter(namer, verify, steps, 3), write, challenge) == Done
            && EncodedResponse(ResponseOf(namer, verify, DeskAfter(namer, verify, steps, 4), read, challenge)).Err?
  {
    var q := write.queue;
    var requests := [Request.Register(q, w, r), ChallengeRequest(q, ToWrite), ChallengeRequest(q, ToRead), write, read];
    var steps := seq(5, i requires 0 <= i < 5 => Asked(requests[i], 0, challenge));
    var toWrite, toRead := KeyOf(q, ToWrite), KeyOf(q, ToRead);
    var queues: Queues := map[q := Queue(Registration(w, r), [], 0)];
    assert DeskAfter(namer, verify, steps, 1) == Desk(queues, map[]);
    assert DeskAfter(namer, verify, steps, 2) == Desk(queues, map[toWrite := challenge]);
    assert DeskAfter(namer, verify, steps, 3) == Desk(queues, map[toWrite := challenge, toRead := challenge]);
    WrittenButNotReadable(namer, verify, DeskAfter(namer, verify, steps, 3), write, read, 0, challenge);
  }

  /**
   * Over the wire, every response can be written: no blob gets in that could
   * not be handed out again, and none is ever refused as too large.
   */
  lemma {:induction false} EveryResponseIsWritable(namer: Namer, verify: Verifier, steps: seq<Step>, i: nat)
    requires i < |steps| && OverTheWire(steps) && steps[i].Asked?
    ensures var desk, step := DeskAfter(namer, verify, steps, i), steps[i];
            var response := ResponseOf(namer, verify, desk, step.request, step.freshChallenge);
            EncodedResponse(response).Ok? && response != Refused(TooLarge)
  {
    var desk := DeskAfter(namer, verify, steps, i);
    StoredBlobsFit(namer, verify, steps, i);
    var response := ResponseOf(namer, verify, desk, steps[i].request, steps[i].freshChallenge);
    if response.Blob? {
      assert desk.queues[steps[i].request.queue].blobs[0] in desk.queues[steps[i].request.queue].blobs;
    }
    ResponseFits(response);
    if steps[i].request.Write? {
      WireBlobFits(steps[i].request);
    }
  }

  // The numbers on the wire.

  /** Every request and response is one record of version 1, if it is not too long for a record. */
  lemma VersionIs(body: Body)
    ensures Encoded(body) == if |body.payload| <= 49_152 then Ok(Framed(Record(1, body.recordType, body.payload)))
                             else Err(Malformed)
  {
  }

  /** The type and payload of each request. */
  lemma RequestsAre(queue: QueueId, w: Bytes32, r: Bytes32, proof: Proof, blob: seq<byte>, id: BlobId)
    ensures RequestBody(Request.Register(queue, w, r)) == Body(0, queue + w + r)
    ensures RequestBody(ChallengeRequest(queue, ToWrite)) == Body(1, queue + [0])
    ensures RequestBody(ChallengeRequest(queue, ToRead)) == Body(1, queue + [1])
    ensures RequestBody(Request.Write(queue, proof, blob)) == Body(3, queue + proof + blob)
    ensures RequestBody(Read(queue, proof)) == Body(4, queue + proof)
    ensures RequestBody(Request.Delete(queue, proof, id)) == Body(6, queue + proof + id)
  {
  }

  /** The type and payload of each response. */
  lemma ResponsesAre(challenge: Challenge, id: BlobId, blob: seq<byte>)
    ensures ResponseBody(Challenged(challenge)) == Body(2, challenge)
    ensures ResponseBody(Response.Blob(id, blob)) == Body(5, id + blob)
    ensures ResponseBody(Done) == Body(7, []) && ResponseBody(Empty) == Body(8, [])
    ensures ResponseBody(Refused(UnknownQueue)) == Body(9, [0]) && ResponseBody(Refused(BadProof)) == Body(9, [1])
    ensures ResponseBody(Refused(TooLarge)) == Body(9, [2]) && ResponseBody(Refused(QueueFull)) == Body(9, [3])
    ensures ResponseBody(Refused(UnknownChallenge)) == Body(9, [4])
  {
  }
}
