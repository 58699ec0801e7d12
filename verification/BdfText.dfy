/** What the text predicate of BDF accepts: UTF-8, as section 3 of RFC 3629 lays it out. */
module BdfText {
  import opened Words
  import opened Bdf

  /** A Unicode scalar value: a code point that is no surrogate. */
  type Scalar = c: int | 0 <= c < 0xd800 || 0xe000 <= c < 0x11_0000

  /** One scalar value in as few bytes as hold it, six bits to each byte after the first. */
  function Utf8Of(c: Scalar): (bytes: seq<byte>)
    ensures 1 <= |bytes| <= 4
  {
    if c < 0x80 then [c]
    else if c < 0x800 then [0xc0 + c / 64, 0x80 + c % 64]
    else if c < 0x1_0000 then [0xe0 + c / 64 / 64, 0x80 + c / 64 % 64, 0x80 + c % 64]
    else [0xf0 + c / 64 / 64 / 64, 0x80 + c / 64 / 64 % 64, 0x80 + c / 64 % 64, 0x80 + c % 64]
  }

  function Utf8OfAll(text: seq<Scalar>): seq<byte> {
    if text == [] then [] else Utf8Of(text[0]) + Utf8OfAll(text[1..])
  }

  /** Looking at the bytes from a place on is looking at what they start there. */
  lemma {:induction false} FromHere(s: seq<byte>, at: nat, skip: nat)
    requires skip <= at <= |s|
    ensures Utf8From(s, at) <==> Utf8From(s[skip..], at - skip)
    decreases |s| - at
  {
    if at < |s| {
      LengthFromHere(s, at, skip);
      if ScalarLength(s, at) > 0 {
        FromHere(s, at + ScalarLength(s, at), skip);
      }
    }
  }

  lemma LengthFromHere(s: seq<byte>, at: nat, skip: nat)
    requires skip <= at < |s|
    ensures ScalarLength(s, at) == ScalarLength(s[skip..], at - skip)
  {
    var t, i := s[skip..], at - skip;
    assert t[i] == s[at];
    assert at + 1 < |s| ==> t[i + 1] == s[at + 1];
    assert at + 2 < |s| ==> t[i + 2] == s[at + 2];
    assert at + 3 < |s| ==> t[i + 3] == s[at + 3];
  }

  /** A written scalar value is taken whole. */
  lemma WrittenIsTaken(c: Scalar, rest: seq<byte>)
    ensures ScalarLength(Utf8Of(c) + rest, 0) == |Utf8Of(c)|
  {
    var bytes, s := Utf8Of(c), Utf8Of(c) + rest;
    assert forall i :: 0 <= i < |bytes| ==> s[i] == bytes[i];
  }

  /** What is taken is some scalar value, written. */
  lemma TakenIsWritten(s: seq<byte>) returns (c: Scalar)
    requires s != [] && ScalarLength(s, 0) > 0
    ensures s[..ScalarLength(s, 0)] == Utf8Of(c)
  {
    var n := ScalarLength(s, 0);
    if n == 1 {
      c := s[0];
      assert s[..1] == [s[0]];
    } else if n == 2 {
      c := TwoBytes(s[0], s[1]);
      assert s[..2] == [s[0], s[1]];
    } else if n == 3 {
      c := ThreeBytes(s[0], s[1], s[2]);
      assert s[..3] == [s[0], s[1], s[2]];
    } else {
      c := FourBytes(s[0], s[1], s[2], s[3]);
      assert s[..4] == [s[0], s[1], s[2], s[3]];
    }
  }

  lemma Six(high: nat, low: nat)
    requires low < 64
    ensures (high * 64 + low) / 64 == high && (high * 64 + low) % 64 == low
  {
  }

  lemma TwoBytes(a: byte, b: byte) returns (c: Scalar)
    requires 0xc2 <= a <= 0xdf && Continuation(b)
    ensures Utf8Of(c) == [a, b]
  {
    Six(a - 0xc0, b - 0x80);
    c := (a - 0xc0) * 64 + (b - 0x80);
  }

  lemma ThreeBytes(a: byte, b: byte, d: byte) returns (c: Scalar)
    requires 0xe0 <= a <= 0xef && Continuation(b) && Continuation(d)
    requires (a == 0xe0 ==> b >= 0xa0) && (a == 0xed ==> b <= 0x9f)
    ensures Utf8Of(c) == [a, b, d]
  {
    var high := (a - 0xe0) * 64 + (b - 0x80);
    Six(a - 0xe0, b - 0x80);
    Six(high, d - 0x80);
    c := high * 64 + (d - 0x80);
  }

  lemma FourBytes(a: byte, b: byte, d: byte, e: byte) returns (c: Scalar)
    requires 0xf0 <= a <= 0xf4 && Continuation(b) && Continuation(d) && Continuation(e)
    requires (a == 0xf0 ==> b >= 0x90) && (a == 0xf4 ==> b <= 0x8f)
    ensures Utf8Of(c) == [a, b, d, e]
  {
    var high := (a - 0xf0) * 64 + (b - 0x80);
    var higher := high * 64 + (d - 0x80);
    Six(a - 0xf0, b - 0x80);
    Six(high, d - 0x80);
    Six(higher, e - 0x80);
    c := higher * 64 + (e - 0x80);
  }

  lemma {:induction false} WrittenIsUtf8(text: seq<Scalar>)
    ensures Utf8(Utf8OfAll(text))
  {
    if text != [] {
      var first, rest := Utf8Of(text[0]), Utf8OfAll(text[1..]);
      WrittenIsUtf8(text[1..]);
      WrittenIsTaken(text[0], rest);
      FromHere(first + rest, |first|, |first|);
      assert (first + rest)[|first|..] == rest;
    }
  }

  lemma {:induction false} Utf8IsWritten(s: seq<byte>) returns (text: seq<Scalar>)
    requires Utf8(s)
    ensures Utf8OfAll(text) == s
  {
    if s == [] {
      text := [];
    } else {
      var n := ScalarLength(s, 0);
      FromHere(s, n, n);
      var first := TakenIsWritten(s);
      var rest := Utf8IsWritten(s[n..]);
      text := [first] + rest;
      assert text[1..] == rest && s == s[..n] + s[n..];
    }
  }

  /** Exactly the byte strings that spell out some text are accepted. */
  lemma Utf8Means(s: seq<byte>)
    ensures Utf8(s) <==> exists text :: Utf8OfAll(text) == s
  {
    if Utf8(s) {
      var text := Utf8IsWritten(s);
    }
    if text :| Utf8OfAll(text) == s {
      WrittenIsUtf8(text);
    }
  }
}
