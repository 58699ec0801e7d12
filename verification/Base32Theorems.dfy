/** Which texts decode to which bytes. */
module Base32Theorems {
  import opened Words
  import BigEndian
  import opened Base32
  import opened Base32Codec

  /** A text without its whitespace, in upper case. */
  function Normal(text: string): string {
    if text == "" then ""
    else if IsWhitespace(text[0]) then Normal(text[1..])
    else [Upper(text[0])] + Normal(text[1..])
  }

  lemma UpperIsIdempotent(c: char)
    ensures Upper(Upper(c)) == Upper(c)
    ensures IsWhitespace(Upper(c)) <==> IsWhitespace(c)
    ensures Position(Upper(c)).None? ==> Upper(c) == c
  {
  }

  /** Case and whitespace make no difference, not even to the error. */
  lemma {:induction false} NormalDecodesAlike(text: string)
    ensures Symbols(Normal(text)) == Symbols(text) && Decoded(Normal(text)) == Decoded(text)
  {
    if text != "" {
      NormalDecodesAlike(text[1..]);
      UpperIsIdempotent(text[0]);
      if !IsWhitespace(text[0]) {
        var c, rest := Upper(text[0]), Normal(text[1..]);
        assert ([c] + rest)[0] == c && ([c] + rest)[1..] == rest;
      }
    }
  }

  /** The symbols of a text are those whose letters it is made of. */
  lemma {:induction false} SymbolsAreLetters(text: string, symbols: seq<Symbol>)
    ensures Symbols(text) == Ok(symbols) <==> Normal(text) == Letters(symbols)
  {
    if text == "" {
      assert Letters(symbols) == "" <==> symbols == [];
    } else if IsWhitespace(text[0]) {
      SymbolsAreLetters(text[1..], symbols);
    } else if symbols == [] {
      NoSymbols(text);
    } else {
      var first, rest := symbols[0], symbols[1..];
      SymbolsAreLetters(text[1..], rest);
      PositionInvertsLetter(Upper(text[0]), first);
      LettersCons(symbols);
      Cons(Upper(text[0]), Normal(text[1..]), Letters(symbols));
      if Position(Upper(text[0])).Some? && Symbols(text[1..]).Ok? {
        Cons(Position(Upper(text[0])).value, Symbols(text[1..]).value, symbols);
      }
    }
  }

  lemma NoSymbols(text: string)
    requires text != "" && !IsWhitespace(text[0])
    ensures Symbols(text) != Ok([]) && Normal(text) != Letters([])
  {
    if Symbols(text).Ok? {
      assert |Symbols(text).value| == 1 + |Symbols(text[1..]).value|;
    }
    assert |Normal(text)| == 1 + |Normal(text[1..])|;
  }

  lemma Cons<T>(head: T, tail: seq<T>, s: seq<T>)
    requires s != []
    ensures [head] + tail == s <==> head == s[0] && tail == s[1..]
  {
    assert s == [s[0]] + s[1..];
    assert ([head] + tail)[0] == head && ([head] + tail)[1..] == tail;
  }

  lemma LettersCons(symbols: seq<Symbol>)
    requires symbols != []
    ensures Letters(symbols) == [Letter(symbols[0])] + Letters(symbols[1..])
  {
  }

  /** The encoder's letters are in normal form already. */
  lemma {:induction false} NormalOfLetters(symbols: seq<Symbol>)
    ensures Normal(Letters(symbols)) == Letters(symbols)
    ensures forall c :: c in Letters(symbols) ==> !IsWhitespace(c)
  {
    if symbols == [] {
      assert Letters(symbols) == "";
    } else {
      NormalOfLetters(symbols[1..]);
      LettersCons(symbols);
      LetterIs(symbols[0]);
      var rest := Letters(symbols[1..]);
      assert ([Letter(symbols[0])] + rest)[0] == Letter(symbols[0]) && ([Letter(symbols[0])] + rest)[1..] == rest;
    }
  }

  /** `char::to_ascii_lowercase`, over a text. */
  function Lower(text: string): (r: string)
    ensures |r| == |text|
  {
    seq(|text|, i requires 0 <= i < |text| => LowerChar(text[i]))
  }

  function LowerChar(c: char): char {
    if 'A' <= c <= 'Z' then (c as int + 32) as char else c
  }

  lemma LowerThenUpper(c: char)
    ensures Upper(LowerChar(c)) == Upper(c)
    ensures IsWhitespace(LowerChar(c)) <==> IsWhitespace(c)
  {
  }

  /** Lower case has the same normal form. */
  lemma {:induction false} NormalOfLower(text: string)
    ensures Normal(Lower(text)) == Normal(text)
  {
    if text != "" {
      NormalOfLower(text[1..]);
      LowerThenUpper(text[0]);
      assert Lower(text)[1..] == Lower(text[1..]);
    }
  }

  lemma {:induction false} NormalOfWhitespace(w: string, rest: string)
    requires forall c :: c in w ==> IsWhitespace(c)
    ensures Normal(w + rest) == Normal(rest)
  {
    if w == "" {
      assert w + rest == rest;
    } else {
      NormalOfWhitespace(w[1..], rest);
      assert (w + rest)[1..] == w[1..] + rest;
    }
  }

  /** So has the text with whitespace put in anywhere. */
  lemma {:induction false} NormalAcrossWhitespace(a: string, w: string, rest: string)
    requires forall c :: c in w ==> IsWhitespace(c)
    ensures Normal(a + w + rest) == Normal(a + rest)
  {
    if a == "" {
      NormalOfWhitespace(w, rest);
      assert a + w + rest == w + rest && a + rest == rest;
    } else {
      NormalAcrossWhitespace(a[1..], w, rest);
      assert (a + w + rest)[1..] == a[1..] + w + rest && (a + rest)[1..] == a[1..] + rest;
    }
  }

  /** One text written as another, each letter in either case, with whitespace anywhere. */
  predicate Respelled(text: string, original: string) {
    if text == "" then original == ""
    else if IsWhitespace(text[0]) then Respelled(text[1..], original)
    else
      && original != ""
      && (text[0] == original[0] || text[0] == LowerChar(original[0]))
      && Respelled(text[1..], original[1..])
  }

  lemma {:induction false} NormalOfRespelled(text: string, original: string)
    requires Respelled(text, original) && forall c :: c in original ==> !IsWhitespace(c)
    ensures Normal(text) == Normal(original)
  {
    if text != "" {
      if IsWhitespace(text[0]) {
        NormalOfRespelled(text[1..], original);
      } else {
        NormalOfRespelled(text[1..], original[1..]);
        LowerThenUpper(original[0]);
        assert original[0] in original;
      }
    }
  }

  /** Symbols that carry these bytes with this many zeros behind them. */
  predicate CarriesOnly(symbols: seq<Symbol>, bytes: seq<byte>, left: nat) {
    SymbolBits(symbols) == ByteBits(bytes) + Zeros(left)
  }

  /** Unpacking finds these bytes where they lie, with fewer than eight zeros behind them. */
  lemma UnpackedLies(symbols: seq<Symbol>, bytes: seq<byte>) returns (left: nat)
    requires Unpacked(symbols) == Ok(bytes)
    ensures left < 8 && 5 * |symbols| == 8 * |bytes| + left && CarriesOnly(symbols, bytes, left)
  {
    var all := SymbolBits(symbols);
    left := |all| % 8;
    var whole := |all| - left;
    assert all == all[..whole] + all[whole..];
    assert ByteBits(bytes) == all[..whole];
  }

  lemma LyingIsUnpacked(symbols: seq<Symbol>, bytes: seq<byte>, left: nat)
    requires left < 8 && CarriesOnly(symbols, bytes, left)
    ensures Unpacked(symbols) == Ok(bytes)
  {
    UnpackedParts(symbols, bytes, Zeros(left));
  }

  lemma {:induction false} ZerosSplit(a: nat, b: nat)
    ensures Zeros(a + b) == Zeros(a) + Zeros(b)
  {
    if b > 0 {
      ZerosSplit(a, b - 1);
      assert Zeros(a) + (Zeros(b - 1) + [0]) == Zeros(a) + Zeros(b - 1) + [0];
    }
  }

  /** A symbol of five zero bits is the letter A. */
  lemma ZeroSymbol(v: Symbol)
    ensures Bits(v, 5) == Zeros(5) <==> v == 0
  {
    BitsOfZero(5);
    SymbolOfBits(v);
    SymbolOfBits(0);
  }

  /** How many bytes leave room for a surplus symbol that no byte boundary notices. */
  predicate HasRoom(length: nat) {
    length % 5 == 0 || length % 5 == 1 || length % 5 == 3
  }

  lemma RoomIsPadding(length: nat, symbols: nat, pad: nat)
    requires 5 * symbols == 8 * length + pad && pad < 5
    ensures HasRoom(length) <==> pad < 3
    ensures symbols % 8 !in {1, 3, 6}
    ensures HasRoom(length) <==> (symbols + 1) % 8 in {1, 3, 6}
  {
    var n, r := length / 5, length % 5;
    assert length == 5 * n + r;
    var k := symbols - 8 * n;
    assert 5 * k == 8 * r + pad;
    assert k == if r == 0 then 0 else if r == 1 then 2 else if r == 2 then 4 else if r == 3 then 5 else 7;
    assert symbols % 8 == k;
  }

  /** The encoder's symbols: as many as it takes, with this many zeros in the last. */
  lemma OwnSymbols(bytes: seq<byte>) returns (pad: nat)
    ensures pad < 5 && CarriesOnly(Grouped(ByteBits(bytes)), bytes, pad)
    ensures 5 * |Grouped(ByteBits(bytes))| == 8 * |bytes| + pad
  {
    var bits := ByteBits(bytes);
    pad := if |bits| % 5 == 0 then 0 else 5 - |bits| % 5;
    GroupedBits(bits, pad);
    assert 5 * |Grouped(bits)| == |SymbolBits(Grouped(bits))| == |bits + Zeros(pad)|;
  }

  /** The symbols that unpack to given bytes: the encoder's, and, where there is room, one zero more. */
  lemma {:induction false} UnpacksTo(symbols: seq<Symbol>, bytes: seq<byte>)
    ensures Unpacked(symbols) == Ok(bytes) <==>
            || symbols == Grouped(ByteBits(bytes))
            || (symbols == Grouped(ByteBits(bytes)) + [0] && HasRoom(|bytes|))
  {
    var own := Grouped(ByteBits(bytes));
    var pad := OwnSymbols(bytes);
    RoomIsPadding(|bytes|, |own|, pad);
    LyingIsUnpacked(own, bytes, pad);
    if HasRoom(|bytes|) {
      SurplusBits(own, bytes, pad);
      LyingIsUnpacked(own + [0], bytes, pad + 5);
    }
    if Unpacked(symbols) == Ok(bytes) {
      OnlyOwnUnpacks(symbols, bytes);
    }
  }

  lemma OnlyOwnUnpacks(symbols: seq<Symbol>, bytes: seq<byte>)
    requires Unpacked(symbols) == Ok(bytes)
    ensures symbols == Grouped(ByteBits(bytes)) || (symbols == Grouped(ByteBits(bytes)) + [0] && HasRoom(|bytes|))
  {
    var left := UnpackedLies(symbols, bytes);
    if left < 5 {
      EncodedIsTheOnly(bytes, symbols, left);
    } else {
      SurplusIsZero(symbols, bytes, left);
    }
  }

  lemma SurplusIsZero(symbols: seq<Symbol>, bytes: seq<byte>, left: nat)
    requires 5 <= left < 8 && 5 * |symbols| == 8 * |bytes| + left && CarriesOnly(symbols, bytes, left)
    ensures symbols == Grouped(ByteBits(bytes)) + [0] && HasRoom(|bytes|)
  {
    DropSurplus(symbols, bytes, left);
    LastApart(symbols);
    EncodedIsTheOnly(bytes, symbols[..|symbols| - 1], left - 5);
    RoomIsPadding(|bytes|, |symbols| - 1, left - 5);
  }

  lemma LastApart<T>(s: seq<T>)
    requires s != []
    ensures s == s[..|s| - 1] + [s[|s| - 1]]
  {
  }

  lemma SurplusBits(own: seq<Symbol>, bytes: seq<byte>, pad: nat)
    requires SymbolBits(own) == ByteBits(bytes) + Zeros(pad)
    ensures SymbolBits(own + [0]) == ByteBits(bytes) + Zeros(pad + 5)
  {
    SymbolBitsPush(own, 0);
    ZeroSymbol(0);
    ZerosSplit(pad, 5);
    JoinRight(ByteBits(bytes), Zeros(pad), Zeros(5));
  }

  lemma DropSurplus(symbols: seq<Symbol>, bytes: seq<byte>, left: nat)
    requires left >= 5 && SymbolBits(symbols) == ByteBits(bytes) + Zeros(left)
    ensures symbols != [] && symbols[|symbols| - 1] == 0
    ensures SymbolBits(symbols[..|symbols| - 1]) == ByteBits(bytes) + Zeros(left - 5)
  {
    assert |SymbolBits(symbols)| == 5 * |symbols| >= 5;
    var init, last := symbols[..|symbols| - 1], symbols[|symbols| - 1];
    ZerosSplit(left - 5, 5);
    JoinRight(ByteBits(bytes), Zeros(left - 5), Zeros(5));
    var all := SymbolBits(symbols);
    assert all == SymbolBits(init) + Bits(last, 5);
    assert |SymbolBits(init)| == |ByteBits(bytes) + Zeros(left - 5)|;
    assert all[|SymbolBits(init)|..] == Bits(last, 5) && all[|SymbolBits(init)|..] == Zeros(5);
    assert all[..|SymbolBits(init)|] == SymbolBits(init);
    ZeroSymbol(last);
  }

  /**
   * Exactly which texts decode to given bytes: those that are, apart from case
   * and whitespace, what the encoder writes, and, for lengths with room for a
   * symbol no byte boundary notices, the same with one A more.
   */
  lemma {:induction false} DecodesTo(text: string, bytes: seq<byte>)
    ensures Decoded(text) == Ok(bytes)
       <==> Normal(text) == Encoded(bytes) || (Normal(text) == Encoded(bytes) + "A" && HasRoom(|bytes|))
  {
    var own := Grouped(ByteBits(bytes));
    SymbolsAreLetters(text, own);
    SymbolsAreLetters(text, own + [0]);
    assert Letters(own + [0]) == Letters(own) + "A";
    if Symbols(text).Ok? {
      UnpacksTo(Symbols(text).value, bytes);
    }
  }

  /**
   * Encoding and decoding give the bytes back: from the encoding itself, from
   * it in lower case, and from it with its letters in either case and
   * whitespace anywhere.
   */
  lemma {:induction false} RoundTrip(bytes: seq<byte>)
    ensures var own := Encoded(bytes);
            && Normal(own) == Normal(Lower(own)) == own
            && Decoded(own) == Decoded(Lower(own)) == Ok(bytes)
    ensures forall text :: Respelled(text, Encoded(bytes)) ==> Decoded(text) == Ok(bytes)
  {
    var own := Encoded(bytes);
    NormalOfLetters(Grouped(ByteBits(bytes)));
    NormalOfLower(own);
    DecodesTo(own, bytes);
    DecodesTo(Lower(own), bytes);
    forall text | Respelled(text, own) ensures Decoded(text) == Ok(bytes) {
      NormalOfRespelled(text, own);
      DecodesTo(text, bytes);
    }
  }

  /** A text decodes as it does with whitespace put in anywhere, to bytes or to an error. */
  lemma {:induction false} WhitespaceMakesNoDifference(a: string, w: string, rest: string)
    requires forall c :: c in w ==> IsWhitespace(c)
    ensures Decoded(a + w + rest) == Decoded(a + rest)
  {
    NormalAcrossWhitespace(a, w, rest);
    NormalDecodesAlike(a + w + rest);
    NormalDecodesAlike(a + rest);
  }

  /**
   * The tail check alone makes decoding injective exactly where the count of
   * symbols is not 1, 3 or 6 more than a multiple of 8.
   */
  lemma {:induction false} TailCheckSuffices(text: string, bytes: seq<byte>)
    requires Decoded(text) == Ok(bytes)
    ensures Normal(text) == Encoded(bytes) <==> |Normal(text)| % 8 !in {1, 3, 6}
  {
    DecodesTo(text, bytes);
    var own := Grouped(ByteBits(bytes));
    var pad := OwnSymbols(bytes);
    RoomIsPadding(|bytes|, |own|, pad);
    if Normal(text) == Encoded(bytes) {
      assert |Normal(text)| == |own|;
    } else {
      assert |Normal(text)| == |own| + 1 && HasRoom(|bytes|);
    }
  }

  lemma LetterF()
    ensures Encoded([0x66]) == "MY"
  {
    var symbols: seq<Symbol> := [12, 24];
    SymbolBitsPush([12], 24);
    SymbolBitsPush([], 12);
    assert [] + [12] == [12] && [12] + [24] == symbols;
    assert Bits(12, 5) == [0, 1, 1, 0, 0] && Bits(24, 5) == [1, 1, 0, 0, 0];
    assert Bits(0x66, 8) == [0, 1, 1, 0, 0, 1, 1, 0] && Zeros(2) == [0, 0];
    ByteBitsPush([], 0x66);
    assert [] + [0x66] == [0x66];
    EncodedIsTheOnly([0x66], symbols, 2);
    LettersMY();
  }

  lemma LettersMY()
    ensures Letters([12, 24]) == "MY"
  {
    LetterIs(12);
    LetterIs(24);
  }

  lemma NormalTexts()
    ensures Normal("MY") == "MY" && Normal("MYA") == "MYA"
  {
    assert Normal("A") == "A" && Normal("Y") == "Y";
    Cons('Y', "A", "YA");
    assert Normal("YA") == "YA";
    Cons('M', "YA", "MYA");
    Cons('M', "Y", "MY");
  }

  /** One such text: a surplus A is read past. */
  lemma {:induction false} SurplusLetterIsAccepted()
    ensures Decoded("MYA") == Ok([0x66]) && Decoded("MY") == Ok([0x66])
  {
    LetterF();
    NormalTexts();
    var bytes: seq<byte> := [0x66];
    assert HasRoom(|bytes|);
    assert "MYA" == "MY" + "A";
    DecodesTo("MY", bytes);
    DecodesTo("MYA", bytes);
  }

  // What is wrong with a text that does not decode.

  /** Neither whitespace nor, in either case, a letter of the alphabet. */
  predicate Foreign(c: char) {
    !IsWhitespace(c) && Upper(c) !in ALPHABET
  }

  lemma PositionMeans(c: char)
    ensures Position(c).None? <==> c !in ALPHABET
  {
    if Position(c).Some? {
      PositionInvertsLetter(c, Position(c).value);
      assert Letter(Position(c).value) in ALPHABET;
    }
    if c in ALPHABET {
      var v :| 0 <= v < |ALPHABET| && ALPHABET[v] == c;
      PositionInvertsLetter(c, v);
    }
  }

  /** Reading stops at the first foreign character and names it as it stands. */
  lemma {:induction false} FirstForeignIsNamed(text: string, i: nat)
    requires i < |text| && Foreign(text[i]) && forall j :: 0 <= j < i ==> !Foreign(text[j])
    ensures Symbols(text) == Err(NotBase32(text[i])) && Decoded(text) == Err(NotBase32(text[i]))
  {
    PositionMeans(Upper(text[0]));
    if i > 0 {
      assert !Foreign(text[0]);
      FirstForeignIsNamed(text[1..], i - 1);
    }
  }

  lemma {:induction false} NothingForeignReads(text: string)
    requires forall j :: 0 <= j < |text| ==> !Foreign(text[j])
    ensures Symbols(text).Ok?
  {
    if text != "" {
      assert !Foreign(text[0]);
      PositionMeans(Upper(text[0]));
      NothingForeignReads(text[1..]);
    }
  }

  /** Without foreign characters only the tail can be wrong, and it is unless the text spells some bytes. */
  lemma WrongTailWhen(text: string)
    requires forall j :: 0 <= j < |text| ==> !Foreign(text[j])
    ensures Decoded(text) == Err(NonCanonicalTail) <==> forall bytes :: !Spells(text, bytes)
  {
    NothingForeignReads(text);
    if Decoded(text).Ok? {
      DecodesTo(text, Decoded(text).value);
      assert Spells(text, Decoded(text).value);
    }
    forall bytes | Spells(text, bytes) ensures Decoded(text).Ok? {
      DecodesTo(text, bytes);
    }
  }

  predicate Spells(text: string, bytes: seq<byte>) {
    Normal(text) == Encoded(bytes) || (Normal(text) == Encoded(bytes) + "A" && HasRoom(|bytes|))
  }
}
