/** The base32 encoder and decoder, and what one makes of the other's output. */
module Base32Codec {
  import opened Words
  import opened Base32
  import BigEndian

  // What the encoder writes.

  /** Bits in groups of five, the last group filled up with zeros. */
  function Grouped(bits: seq<Bit>): seq<Symbol> {
    if bits == [] then []
    else if |bits| < 5 then [Group(bits + Zeros(5 - |bits|))]
    else [Group(bits[..5])] + Grouped(bits[5..])
  }

  function Group(bits: seq<Bit>): (v: Symbol)
    requires |bits| == 5
    ensures Bits(v, 5) == bits
  {
    BitsOfNumber(bits);
    Powers();
    Number(bits)
  }

  lemma OneGroup(bits: seq<Bit>)
    requires |bits| == 5
    ensures SymbolBits([Group(bits)]) == bits
  {
    SymbolBitsPush([], Group(bits));
  }

  /** The groups carry the bits, and as many zeros as fill up the last one. */
  lemma {:induction false} GroupedBits(bits: seq<Bit>, pad: nat)
    requires pad < 5 && (|bits| + pad) % 5 == 0
    ensures SymbolBits(Grouped(bits)) == bits + Zeros(pad)
  {
    if |bits| == 0 {
      assert pad == 0 && bits + Zeros(0) == [];
    } else if |bits| < 5 {
      assert pad == 5 - |bits|;
      OneGroup(bits + Zeros(pad));
    } else {
      var first, rest := bits[..5], bits[5..];
      assert |rest| + pad == |bits| + pad - 5;
      GroupedBits(rest, pad);
      OneGroup(first);
      SymbolBitsJoin([Group(first)], Grouped(rest));
      assert bits == first + rest;
      JoinRight(first, rest, Zeros(pad));
    }
  }

  lemma {:induction false} SymbolBitsJoin(a: seq<Symbol>, b: seq<Symbol>)
    ensures SymbolBits(a + b) == SymbolBits(a) + SymbolBits(b)
  {
    if b == [] {
      assert a + b == a;
    } else {
      var n := |b| - 1;
      SymbolBitsJoin(a, b[..n]);
      SymbolBitsPush(a + b[..n], b[n]);
      assert a + b == (a + b[..n]) + [b[n]];
      JoinRight(SymbolBits(a), SymbolBits(b[..n]), Bits(b[n], 5));
    }
  }

  /** Symbols that carry these bytes with less than a group of zeros behind them are the encoder's. */
  lemma EncodedIsTheOnly(bytes: seq<byte>, symbols: seq<Symbol>, pad: nat)
    requires SymbolBits(symbols) == ByteBits(bytes) + Zeros(pad) && pad < 5
    ensures symbols == Grouped(ByteBits(bytes))
  {
    assert 5 * |symbols| == |SymbolBits(symbols)| == |ByteBits(bytes)| + pad;
    GroupedBits(ByteBits(bytes), pad);
    SymbolBitsInjective(symbols, Grouped(ByteBits(bytes)));
  }

  function Encoded(bytes: seq<byte>): string {
    Letters(Grouped(ByteBits(bytes)))
  }

  /** `(buffer << 8) | b` in 32 bits. */
  function WithByte(buffer: u32, b: byte): u32 {
    Overflow(buffer, b, 256, 0x100_0000);
    (buffer * 256) % (U32_MAX + 1) + b
  }

  /** `(buffer << 5) | v` in 32 bits. */
  function WithSymbol(buffer: u32, v: Symbol): u32 {
    Overflow(buffer, v, 32, 0x800_0000);
    (buffer * 32) % (U32_MAX + 1) + v
  }

  /** What falls out of the top of the buffer was not among its live bits. */
  lemma LiveBits(n: nat, buffer: u32, v: nat, live: nat, shift: nat)
    requires n == buffer * Pow2(shift) + v && v < Pow2(shift) && live + shift <= 32
    ensures Bits(n % (U32_MAX + 1), live + shift) == Bits(buffer, live) + Bits(v, shift)
  {
    Powers();
    LowIsRemainder(n, 32);
    BitsOfLow(n, 32, live + shift);
    BitsAppend(buffer, v, live, shift);
  }

  /** Both buffers are the number with the value appended, cut off at 32 bits. */
  lemma Wrapped(buffer: u32, b: byte, v: Symbol)
    ensures WithByte(buffer, b) == (buffer * 256 + b) % (U32_MAX + 1)
    ensures WithSymbol(buffer, v) == (buffer * 32 + v) % (U32_MAX + 1)
  {
    Overflow(buffer, b, 256, 0x100_0000);
    Overflow(buffer, v, 32, 0x800_0000);
  }

  lemma BitsWithByte(buffer: u32, b: byte, live: nat)
    requires live + 8 <= 32
    ensures Bits(WithByte(buffer, b), live + 8) == Bits(buffer, live) + Bits(b, 8)
  {
    assert Pow2(8) == 256 by {
      Powers();
    }
    Wrapped(buffer, b, 0);
    LiveBits(buffer * 256 + b, buffer, b, live, 8);
  }

  lemma BitsWithSymbol(buffer: u32, v: Symbol, live: nat)
    requires live + 5 <= 32
    ensures Bits(WithSymbol(buffer, v), live + 5) == Bits(buffer, live) + Bits(v, 5)
  {
    assert Pow2(5) == 32 by {
      Powers();
    }
    Wrapped(buffer, 0, v);
    LiveBits(buffer * 32 + v, buffer, v, live, 5);
  }

  /** A value or-ed into the bits a shift has cleared: cutting off commutes with it. */
  lemma Overflow(buffer: u32, v: nat, factor: nat, cofactor: nat)
    requires (factor == 32 && cofactor == 0x800_0000) || (factor == 256 && cofactor == 0x100_0000)
    requires v < factor
    ensures (buffer * factor) % (U32_MAX + 1) + v == (buffer * factor + v) % (U32_MAX + 1)
  {
    var m := U32_MAX + 1;
    var q, r := (buffer * factor) / m, (buffer * factor) % m;
    assert buffer * factor == q * m + r;
    assert r == factor * (buffer - q * cofactor);
    assert r + v < m;
    BigEndian.ModUnique(buffer * factor + v, m, q, r + v);
  }

  /** Taking a group off the top of the live bits. */
  lemma ShiftOut(buffer: u32, live: nat, width: nat)
    ensures Bits(buffer, width + live) == Bits(Low(Shr(buffer, live), width), width) + Bits(buffer, live)
  {
    BitsSplit(buffer, width, live);
    BitsOfLow(Shr(buffer, live), width, width);
  }

  /** Symbols written, with the live bits of the buffer after them, carry the bytes read. */
  predicate Carries(symbols: seq<Symbol>, buffer: u32, live: nat, bytes: seq<byte>) {
    SymbolBits(symbols) + Bits(buffer, live) == ByteBits(bytes)
  }

  lemma ByteIn(symbols: seq<Symbol>, buffer: u32, live: nat, bytes: seq<byte>, b: byte)
    requires Carries(symbols, buffer, live, bytes) && live < 5
    ensures Carries(symbols, WithByte(buffer, b), live + 8, bytes + [b])
  {
    BitsWithByte(buffer, b, live);
    ByteBitsPush(bytes, b);
    JoinRight(SymbolBits(symbols), Bits(buffer, live), Bits(b, 8));
  }

  lemma SymbolOut(symbols: seq<Symbol>, buffer: u32, live: nat, bytes: seq<byte>)
    requires Carries(symbols, buffer, live + 5, bytes)
    ensures Low(Shr(buffer, live), 5) < 32
    ensures Carries(symbols + [Low(Shr(buffer, live), 5)], buffer, live, bytes)
  {
    Powers();
    var v: Symbol := Low(Shr(buffer, live), 5);
    ShiftOut(buffer, live, 5);
    SymbolBitsPush(symbols, v);
    JoinRight(SymbolBits(symbols), Bits(v, 5), Bits(buffer, live));
  }

  lemma LastSymbol(symbols: seq<Symbol>, buffer: u32, live: nat, bytes: seq<byte>)
    requires Carries(symbols, buffer, live, bytes) && live < 5
    ensures live == 0 ==> symbols == Grouped(ByteBits(bytes))
    ensures live > 0 ==>
              && Low((buffer * Pow2(5 - live)) % (U32_MAX + 1), 5) < 32
              && symbols + [Low((buffer * Pow2(5 - live)) % (U32_MAX + 1), 5)] == Grouped(ByteBits(bytes))
  {
    if live == 0 {
      assert SymbolBits(symbols) == ByteBits(bytes) + Zeros(0);
      EncodedIsTheOnly(bytes, symbols, 0);
    } else {
      FillUp(buffer, live);
      var v: Symbol := Low((buffer * Pow2(5 - live)) % (U32_MAX + 1), 5);
      SymbolBitsPush(symbols, v);
      JoinRight(SymbolBits(symbols), Bits(buffer, live), Zeros(5 - live));
      EncodedIsTheOnly(bytes, symbols + [v], 5 - live);
    }
  }

  method Encode(bytes: seq<byte>) returns (out: string)
    ensures out == Encoded(bytes)
  {
    out := "";
    var buffer: u32 := 0;
    var bits: nat := 0;
    ghost var symbols: seq<Symbol> := [];
    for i := 0 to |bytes|
      invariant bits < 5 && out == Letters(symbols)
      invariant Carries(symbols, buffer, bits, bytes[..i])
    {
      ByteIn(symbols, buffer, bits, bytes[..i], bytes[i]);
      assert bytes[..i + 1] == bytes[..i] + [bytes[i]];
      buffer := WithByte(buffer, bytes[i]);
      bits := bits + 8;
      while bits >= 5
        invariant bits <= 12 && out == Letters(symbols)
        invariant Carries(symbols, buffer, bits, bytes[..i + 1])
      {
        bits := bits - 5;
        SymbolOut(symbols, buffer, bits, bytes[..i + 1]);
        var v: Symbol := Low(Shr(buffer, bits), 5);
        out := out + [Letter(v)];
        symbols := symbols + [v];
      }
    }
    assert bytes[..|bytes|] == bytes;
    LastSymbol(symbols, buffer, bits, bytes);
    if bits > 0 {
      var v: Symbol := Low((buffer * Pow2(5 - bits)) % (U32_MAX + 1), 5);
      out := out + [Letter(v)];
      symbols := symbols + [v];
    }
  }

  lemma JoinRight(a: seq<Bit>, b: seq<Bit>, c: seq<Bit>)
    ensures (a + b) + c == a + (b + c)
  {
  }

  /** The last group, shifted up, has its live bits on top and zeros below. */
  lemma FillUp(buffer: u32, live: nat)
    requires 0 < live < 5
    ensures Low((buffer * Pow2(5 - live)) % (U32_MAX + 1), 5) < 32
    ensures Bits(Low((buffer * Pow2(5 - live)) % (U32_MAX + 1), 5), 5) == Bits(buffer, live) + Zeros(5 - live)
  {
    Powers();
    var n := buffer * Pow2(5 - live);
    LowIsRemainder(n, 32);
    BitsOfLow(Low(n, 32), 5, 5);
    BitsOfLow(n, 32, 5);
    BitsAppend(buffer, 0, live, 5 - live);
    BitsOfZero(5 - live);
  }

  // What the decoder reads.

  /** The symbols of a text, or the first character that is none. */
  function Symbols(text: string): Result<seq<Symbol>, Error> {
    if text == "" then Ok([])
    else if IsWhitespace(text[0]) then Symbols(text[1..])
    else if Position(Upper(text[0])).None? then Err(NotBase32(text[0]))
    else
      var rest :- Symbols(text[1..]);
      Ok([Position(Upper(text[0])).value] + rest)
  }

  function Octet(bits: seq<Bit>): (b: byte)
    requires |bits| == 8
    ensures Bits(b, 8) == bits
  {
    BitsOfNumber(bits);
    Powers();
    Number(bits)
  }

  function BytesOf(bits: seq<Bit>): (bytes: seq<byte>)
    requires |bits| % 8 == 0
    ensures ByteBits(bytes) == bits
    decreases |bits|
  {
    if |bits| == 0 then []
    else
      var n := |bits| - 8;
      ByteBitsPush(BytesOf(bits[..n]), Octet(bits[n..]));
      assert bits == bits[..n] + bits[n..];
      BytesOf(bits[..n]) + [Octet(bits[n..])]
  }

  lemma WholeBytes(n: nat)
    ensures n % 8 <= n && (n - n % 8) % 8 == 0
  {
    BigEndian.ModUnique(n - n % 8, 8, n / 8, 0);
  }

  /** Whole bytes, if nothing but zeros is left behind them. */
  function Unpacked(symbols: seq<Symbol>): Result<seq<byte>, Error> {
    var bits := SymbolBits(symbols);
    var live := |bits| % 8;
    var whole := |bits| - live;
    WholeBytes(|bits|);
    if bits[whole..] == Zeros(live) then Ok(BytesOf(bits[..whole])) else Err(NonCanonicalTail)
  }

  function Decoded(text: string): Result<seq<byte>, Error> {
    var symbols :- Symbols(text);
    Unpacked(symbols)
  }

  function Prepend(done: seq<Symbol>, r: Result<seq<Symbol>, Error>): Result<seq<Symbol>, Error> {
    if r.Ok? then Ok(done + r.value) else r
  }

  lemma PrependSymbol(done: seq<Symbol>, v: Symbol, r: Result<seq<Symbol>, Error>)
    ensures Prepend(done, Prepend([v], r)) == Prepend(done + [v], r)
  {
    if r.Ok? {
      assert done + ([v] + r.value) == (done + [v]) + r.value;
    }
  }

  /** Bytes written, with the live bits of the buffer after them, carry the symbols read. */
  predicate Holds(out: seq<byte>, buffer: u32, live: nat, symbols: seq<Symbol>) {
    ByteBits(out) + Bits(buffer, live) == SymbolBits(symbols)
  }

  lemma SymbolIn(out: seq<byte>, buffer: u32, live: nat, symbols: seq<Symbol>, v: Symbol)
    requires Holds(out, buffer, live, symbols) && live < 8
    ensures Holds(out, WithSymbol(buffer, v), live + 5, symbols + [v])
  {
    BitsWithSymbol(buffer, v, live);
    SymbolBitsPush(symbols, v);
    JoinRight(ByteBits(out), Bits(buffer, live), Bits(v, 5));
  }

  lemma ByteOut(out: seq<byte>, buffer: u32, live: nat, symbols: seq<Symbol>)
    requires Holds(out, buffer, live + 8, symbols)
    ensures Low(Shr(buffer, live), 8) < 256
    ensures Holds(out + [Low(Shr(buffer, live), 8)], buffer, live, symbols)
  {
    Powers();
    var b: byte := Low(Shr(buffer, live), 8);
    ShiftOut(buffer, live, 8);
    ByteBitsPush(out, b);
    JoinRight(ByteBits(out), Bits(b, 8), Bits(buffer, live));
  }

  /** Unpacking parts the bits where the last whole byte ends. */
  lemma UnpackedParts(symbols: seq<Symbol>, out: seq<byte>, tail: seq<Bit>)
    requires SymbolBits(symbols) == ByteBits(out) + tail && |tail| < 8
    ensures Unpacked(symbols) == if tail == Zeros(|tail|) then Ok(out) else Err(NonCanonicalTail)
  {
    var all, whole := SymbolBits(symbols), ByteBits(out);
    BigEndian.ModUnique(|all|, 8, |out|, |tail|);
    assert all[..|whole|] == whole && all[|whole|..] == tail;
    ByteBitsInjective(out, BytesOf(whole));
  }

  /** At the end: whole bytes are out, and the live bits are what must be zero. */
  lemma Leftover(out: seq<byte>, buffer: u32, live: nat, symbols: seq<Symbol>)
    requires Holds(out, buffer, live, symbols) && live < 8
    ensures Unpacked(symbols) == if Low(buffer, live) != 0 then Err(NonCanonicalTail) else Ok(out)
  {
    ZeroBits(buffer, live);
    UnpackedParts(symbols, out, Bits(buffer, live));
  }

  method Decode(text: string) returns (r: Result<seq<byte>, Error>)
    ensures r == Decoded(text)
  {
    var out: seq<byte> := [];
    var buffer: u32 := 0;
    var bits: nat := 0;
    ghost var symbols: seq<Symbol> := [];
    PrependNothing(Symbols(text));
    assert text[0..] == text;
    for i := 0 to |text|
      invariant bits < 8 && Holds(out, buffer, bits, symbols)
      invariant Symbols(text) == Prepend(symbols, Symbols(text[i..]))
    {
      var character := text[i];
      assert text[i..][0] == character && text[i..][1..] == text[i + 1..];
      if IsWhitespace(character) {
        continue;
      }
      var position := Position(Upper(character));
      if position.None? {
        return Err(NotBase32(character));
      }
      var value := position.value;
      PrependSymbol(symbols, value, Symbols(text[i + 1..]));
      SymbolIn(out, buffer, bits, symbols, value);
      symbols := symbols + [value];
      buffer := WithSymbol(buffer, value);
      bits := bits + 5;
      if bits >= 8 {
        bits := bits - 8;
        ByteOut(out, buffer, bits, symbols);
        out := out + [Low(Shr(buffer, bits), 8)];
      }
    }
    assert Symbols("") == Ok([]) && symbols + [] == symbols;
    Leftover(out, buffer, bits, symbols);
    if bits > 0 && Low(buffer, bits) != 0 {
      return Err(NonCanonicalTail);
    }
    r := Ok(out);
  }

  lemma PrependNothing(r: Result<seq<Symbol>, Error>)
    ensures Prepend([], r) == r
  {
    if r.Ok? {
      assert [] + r.value == r.value;
    }
  }
}
