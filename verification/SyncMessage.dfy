/** Messages of a group's graph, and their fixed layout on the wire. */
module SyncMessage {
  import opened Words
  import opened BigEndian

  const MAX_MESSAGE_BODY_LEN: nat := 32 * 1024
  const MESSAGE_HEADER_LEN: nat := 32 + 8 + 32 + 32 + 64

  type MessageId = Bytes32

  datatype Error = MessageBodyTooLong(length: nat) | Malformed

  datatype Message = Message(
    groupId: Bytes32, timestampMs: u64, author: Bytes32, deviceKey: Bytes32, body: seq<byte>)

  datatype SignedMessage = SignedMessage(message: Message, signature: Bytes64)

  function Header(signed: SignedMessage): (out: seq<byte>)
    ensures |out| == MESSAGE_HEADER_LEN
  {
    var m := signed.message;
    m.groupId + Digits(m.timestampMs, 8) + m.author + m.deviceKey + signed.signature
  }

  function EncodedMessage(signed: SignedMessage): Result<seq<byte>, Error> {
    if |signed.message.body| > MAX_MESSAGE_BODY_LEN then Err(MessageBodyTooLong(|signed.message.body|))
    else Ok(Header(signed) + signed.message.body)
  }

  method EncodeMessage(message: Message, signature: Bytes64) returns (r: Result<seq<byte>, Error>)
    ensures r == EncodedMessage(SignedMessage(message, signature))
  {
    if |message.body| > MAX_MESSAGE_BODY_LEN {
      return Err(MessageBodyTooLong(|message.body|));
    }
    var out: seq<byte> := [];
    out := out + message.groupId;
    out := out + Digits(message.timestampMs, 8);
    out := out + message.author;
    out := out + message.deviceKey;
    out := out + signature;
    assert out == Header(SignedMessage(message, signature));
    out := out + message.body;
    r := Ok(out);
  }

  lemma TimestampFits(bytes: seq<byte>)
    requires |bytes| == 8
    ensures Number(bytes) <= U64_MAX
  {
    PowValues();
    NumberBound(bytes);
  }

  function DecodedMessage(payload: seq<byte>): Result<SignedMessage, Error> {
    if |payload| < MESSAGE_HEADER_LEN then Err(Malformed)
    else if |payload| - MESSAGE_HEADER_LEN > MAX_MESSAGE_BODY_LEN then Err(Malformed)
    else
      TimestampFits(payload[32..40]);
      Ok(SignedMessage(
        Message(payload[..32], Number(payload[32..40]), payload[40..72], payload[72..104], payload[168..]),
        payload[104..168]))
  }

  /** A payload reads as a message exactly when the message is written as that payload. */
  lemma MessageWireInverse(payload: seq<byte>, signed: SignedMessage)
    ensures DecodedMessage(payload) == Ok(signed) <==> EncodedMessage(signed) == Ok(payload)
  {
    if DecodedMessage(payload) == Ok(signed) {
      DigitsOfNumber(payload[32..40]);
      Assembled(payload);
    }
    if EncodedMessage(signed) == Ok(payload) {
      TakenApart(signed);
    }
  }

  lemma Assembled(p: seq<byte>)
    requires |p| >= MESSAGE_HEADER_LEN
    ensures p == (p[..32] + p[32..40] + p[40..72] + p[72..104] + p[104..168]) + p[168..]
  {
  }

  lemma TakenApart(signed: SignedMessage)
    requires |signed.message.body| <= MAX_MESSAGE_BODY_LEN
    ensures DecodedMessage(Header(signed) + signed.message.body) == Ok(signed)
  {
    var m := signed.message;
    var p := Header(signed) + m.body;
    PowValues();
    NumberOfDigits(m.timestampMs, 8);
    Fields(m.groupId, Digits(m.timestampMs, 8), m.author, m.deviceKey, signed.signature, m.body);
  }

  lemma Fields(a: seq<byte>, b: seq<byte>, c: seq<byte>, d: seq<byte>, e: seq<byte>, f: seq<byte>)
    requires |a| == 32 && |b| == 8 && |c| == 32 && |d| == 32 && |e| == 64
    ensures var p := (a + b + c + d + e) + f;
            p[..32] == a && p[32..40] == b && p[40..72] == c && p[72..104] == d && p[104..168] == e && p[168..] == f
  {
  }

  /** Where each field lies. */
  lemma LayoutIs(signed: SignedMessage)
    ensures var p := Header(signed) + signed.message.body;
            && EncodedMessage(signed) == (if |signed.message.body| <= 32_768 then Ok(p)
                                          else Err(MessageBodyTooLong(|signed.message.body|)))
            && |p| == 168 + |signed.message.body|
            && p[..32] == signed.message.groupId
            && p[32..40] == Digits(signed.message.timestampMs, 8)
            && p[40..72] == signed.message.author
            && p[72..104] == signed.message.deviceKey
            && p[104..168] == signed.signature
            && p[168..] == signed.message.body
  {
    var m := signed.message;
    Fields(m.groupId, Digits(m.timestampMs, 8), m.author, m.deviceKey, signed.signature, m.body);
  }
}
