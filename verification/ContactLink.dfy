/** Contact links: two keys as a line of text, and what reads back as one. */
module ContactLink {
  import opened Words
  import opened Base32
  import Base32Codec
  import opened Base32Theorems

  const LINK_PREFIX := "onestein:1:"

  datatype Error = Malformed | NotALink | NotBase32(error: Base32.Error)

  datatype Link = Link(contactKey: Bytes32, commitment: Bytes32)

  function Payload(link: Link): seq<byte> {
    link.contactKey + link.commitment
  }

  function Text(link: Link): string {
    LINK_PREFIX + Base32Codec.Encoded(Payload(link))
  }

  function TrimStart(text: string): string {
    if text != "" && IsWhitespace(text[0]) then TrimStart(text[1..]) else text
  }

  function TrimEnd(text: string): string {
    if text != "" && IsWhitespace(text[|text| - 1]) then TrimEnd(text[..|text| - 1]) else text
  }

  /** `str::trim`. */
  function Trim(text: string): string {
    TrimEnd(TrimStart(text))
  }

  function Parsed(text: string): Result<Link, Error> {
    var line := Trim(text);
    if !(LINK_PREFIX <= line) then Err(NotALink)
    else
      match Base32Codec.Decoded(line[|LINK_PREFIX|..])
      case Err(error) => Err(Error.NotBase32(error))
      case Ok(bytes) => if |bytes| != 64 then Err(Malformed) else Ok(Link(bytes[..32], bytes[32..]))
  }

  method ToText(link: Link) returns (text: string)
    ensures text == Text(link)
  {
    var payload: seq<byte> := link.contactKey;
    payload := payload + link.commitment;
    var symbols := Base32Codec.Encode(payload);
    text := LINK_PREFIX + symbols;
  }

  method Parse(text: string) returns (r: Result<Link, Error>)
    ensures r == Parsed(text)
  {
    var line := Trim(text);
    if !(LINK_PREFIX <= line) {
      return Err(NotALink);
    }
    var decoded := Base32Codec.Decode(line[|LINK_PREFIX|..]);
    if decoded.Err? {
      return Err(Error.NotBase32(decoded.error));
    }
    var bytes := decoded.value;
    if |bytes| != 64 {
      return Err(Malformed);
    }
    r := Ok(Link(bytes[..32], bytes[32..]));
  }

  /** What follows the prefix of a trimmed text, without whitespace and in upper case. */
  function NormalPayload(text: string): string
    requires LINK_PREFIX <= Trim(text)
  {
    Normal(Trim(text)[|LINK_PREFIX|..])
  }

  /**
   * A text reads as a link exactly when, trimmed, it starts with the prefix
   * and goes on with the link's own base32, apart from case and whitespace.
   * Sixty-four bytes leave no room for a surplus symbol.
   */
  lemma ReadsAs(text: string, link: Link)
    ensures Parsed(text) == Ok(link)
       <==> LINK_PREFIX <= Trim(text) && NormalPayload(text) == Base32Codec.Encoded(Payload(link))
  {
    if LINK_PREFIX <= Trim(text) {
      var payload := Trim(text)[|LINK_PREFIX|..];
      assert !HasRoom(64);
      DecodesTo(payload, Payload(link));
      assert Payload(link)[..32] == link.contactKey && Payload(link)[32..] == link.commitment;
      if Base32Codec.Decoded(payload).Ok? {
        var bytes := Base32Codec.Decoded(payload).value;
        if |bytes| == 64 {
          assert bytes == bytes[..32] + bytes[32..];
        }
      }
    }
  }

  /** A link's own payload has 103 symbols. */
  lemma PayloadLength(link: Link)
    ensures |Base32Codec.Encoded(Payload(link))| == 103
  {
    var pad := OwnSymbols(Payload(link));
  }

  /** Parsing is injective: two texts that read as one link are that link's text, apart from case and whitespace. */
  lemma {:induction false} ParsingIsInjective(a: string, b: string)
    requires Parsed(a).Ok? && Parsed(b).Ok?
    ensures LINK_PREFIX <= Trim(a) && LINK_PREFIX <= Trim(b)
    ensures Parsed(a) == Parsed(b) <==> NormalPayload(a) == NormalPayload(b)
    ensures |NormalPayload(a)| == 103
  {
    ReadsAs(a, Parsed(a).value);
    ReadsAs(b, Parsed(b).value);
    ReadsAs(b, Parsed(a).value);
    PayloadLength(Parsed(a).value);
  }

  // A link's own text.

  lemma {:induction false} TrimAround(before: string, text: string, after: string)
    requires text != "" && !IsWhitespace(text[0]) && !IsWhitespace(text[|text| - 1])
    requires forall c :: c in before ==> IsWhitespace(c)
    requires forall c :: c in after ==> IsWhitespace(c)
    ensures Trim(before + text + after) == text
    decreases |before|, |after|
  {
    var all := before + text + after;
    if before != "" {
      TrimAround(before[1..], text, after);
      assert all[1..] == before[1..] + text + after;
    } else if after != "" {
      TrimAround(before, text, after[..|after| - 1]);
      assert all[..|all| - 1] == before + text + after[..|after| - 1];
      assert all[0] == text[0] && all[|all| - 1] == after[|after| - 1];
      assert (before + text + after[..|after| - 1])[0] == text[0];
    } else {
      assert all == text;
    }
  }

  /** A link written out, with any whitespace around it, reads back as that link. */
  lemma LinkRoundTrip(link: Link, before: string, after: string)
    requires forall c :: c in before ==> IsWhitespace(c)
    requires forall c :: c in after ==> IsWhitespace(c)
    ensures Parsed(before + Text(link) + after) == Ok(link)
  {
    var symbols := Base32Codec.Grouped(ByteBits(Payload(link)));
    var own := Base32Codec.Encoded(Payload(link));
    PayloadLength(link);
    NormalOfLetters(symbols);
    assert Text(link)[|Text(link)| - 1] == own[|own| - 1] && own[|own| - 1] in own;
    TrimAround(before, Text(link), after);
    assert Text(link)[|LINK_PREFIX|..] == own;
    ReadsAs(before + Text(link) + after, link);
  }

  /** What stands where: the prefix, then base32 of the contact key followed by the commitment. */
  lemma LayoutIs(link: Link)
    ensures "onestein:1:" <= Text(link)
    ensures Base32Codec.Decoded(Text(link)[11..]) == Ok(link.contactKey + link.commitment)
  {
    RoundTrip(Payload(link));
    assert Text(link)[11..] == Base32Codec.Encoded(Payload(link));
  }

  /** What each refusal means: no prefix, then no base32, then not 64 bytes. */
  lemma RefusalsSayWhy(text: string)
    ensures Parsed(text) == Err(NotALink) <==> !("onestein:1:" <= Trim(text))
    ensures "onestein:1:" <= Trim(text) ==>
              var decoded := Base32Codec.Decoded(Trim(text)[11..]);
              && (forall error :: Parsed(text) == Err(Error.NotBase32(error)) <==> decoded == Err(error))
              && (Parsed(text) == Err(Malformed) <==> decoded.Ok? && |decoded.value| != 64)
  {
  }
}
