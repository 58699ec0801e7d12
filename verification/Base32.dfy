/** Base32 as in section 6 of RFC 4648: upper case, without padding. */
module Base32 {
  import opened Words
  import BigEndian

  const ALPHABET := "ABCDEFGHIJKLMNOPQRSTUVWXYZ234567"

  type Symbol = x: int | 0 <= x < 32
  type Bit = x: int | 0 <= x < 2

  datatype Error = NotBase32(found: char) | NonCanonicalTail

  // Numbers as bits.

  /** A number shifted right. */
  function Shr(n: nat, shift: nat): nat {
    if shift == 0 then n else Shr(n / 2, shift - 1)
  }

  /** A number masked to its low bits. */
  function Low(n: nat, width: nat): (low: nat)
    ensures low < Pow2(width)
  {
    if width == 0 then 0 else 2 * Low(n / 2, width - 1) + n % 2
  }

  /** The low `width` bits of a number, most significant first. */
  function Bits(n: nat, width: nat): (bits: seq<Bit>)
    ensures |bits| == width
  {
    if width == 0 then [] else Bits(n / 2, width - 1) + [n % 2]
  }

  function Number(bits: seq<Bit>): nat {
    if bits == [] then 0 else Number(bits[..|bits| - 1]) * 2 + bits[|bits| - 1]
  }

  function Zeros(n: nat): (bits: seq<Bit>)
    ensures |bits| == n
  {
    if n == 0 then [] else Zeros(n - 1) + [0]
  }

  lemma {:induction false} NumberOfBits(n: nat, width: nat)
    ensures Number(Bits(n, width)) == Low(n, width)
  {
    if width > 0 {
      NumberOfBits(n / 2, width - 1);
      assert Bits(n, width)[..width - 1] == Bits(n / 2, width - 1);
    }
  }

  lemma {:induction false} BitsOfNumber(bits: seq<Bit>)
    ensures Bits(Number(bits), |bits|) == bits
    ensures Number(bits) < Pow2(|bits|)
  {
    if bits != [] {
      BitsOfNumber(bits[..|bits| - 1]);
      assert bits == bits[..|bits| - 1] + [bits[|bits| - 1]];
    }
  }

  lemma {:induction false} LowOfSmall(n: nat, width: nat)
    requires n < Pow2(width)
    ensures Low(n, width) == n
  {
    if width > 0 {
      LowOfSmall(n / 2, width - 1);
    }
  }

  /** Masking is the remainder by a power of two. */
  lemma {:induction false} LowIsRemainder(n: nat, width: nat)
    ensures Low(n, width) == n % Pow2(width)
  {
    if width > 0 {
      LowIsRemainder(n / 2, width - 1);
      ModStep(n, Pow2(width - 1));
    }
  }

  lemma ModStep(n: nat, p: nat)
    requires p >= 1
    ensures n % (2 * p) == 2 * ((n / 2) % p) + n % 2
  {
    var q, r := (n / 2) / p, (n / 2) % p;
    assert n / 2 == q * p + r;
    assert q * (2 * p) == 2 * (q * p);
    BigEndian.ModUnique(n, 2 * p, q, 2 * r + n % 2);
  }

  /** The low bits do not see what a mask cuts off. */
  lemma {:induction false} BitsOfLow(n: nat, cut: nat, width: nat)
    requires width <= cut
    ensures Bits(Low(n, cut), width) == Bits(n, width)
  {
    if width > 0 {
      assert Low(n, cut) / 2 == Low(n / 2, cut - 1) && Low(n, cut) % 2 == n % 2;
      BitsOfLow(n / 2, cut - 1, width - 1);
    }
  }

  /** A number's bits are those of its high part, then those of its low part. */
  lemma {:induction false} BitsSplit(n: nat, width: nat, shift: nat)
    ensures Bits(n, width + shift) == Bits(Shr(n, shift), width) + Bits(n, shift)
  {
    if shift > 0 {
      BitsSplit(n / 2, width, shift - 1);
      assert Bits(Shr(n, shift), width) + (Bits(n / 2, shift - 1) + [n % 2])
          == Bits(Shr(n, shift), width) + Bits(n / 2, shift - 1) + [n % 2];
    }
  }

  /** Appending a value to a number appends its bits. */
  lemma {:induction false} BitsAppend(high: nat, low: nat, width: nat, shift: nat)
    requires low < Pow2(shift)
    ensures Bits(high * Pow2(shift) + low, width + shift) == Bits(high, width) + Bits(low, shift)
  {
    if shift > 0 {
      Halved(high, Pow2(shift - 1), low);
      BitsAppend(high, low / 2, width, shift - 1);
      assert Bits(high, width) + (Bits(low / 2, shift - 1) + [low % 2])
          == Bits(high, width) + Bits(low / 2, shift - 1) + [low % 2];
    }
  }

  lemma Halved(high: nat, p: nat, low: nat)
    ensures (high * (2 * p) + low) / 2 == high * p + low / 2 && (high * (2 * p) + low) % 2 == low % 2
  {
    assert high * (2 * p) == 2 * (high * p);
  }

  /** All bits are zero exactly when the mask leaves nothing. */
  lemma ZeroBits(n: nat, width: nat)
    ensures Bits(n, width) == Zeros(width) <==> Low(n, width) == 0
  {
    BitsOfLow(n, width, width);
    NumberOfBits(n, width);
    BitsOfZero(width);
    NumberOfBits(0, width);
    LowOfSmall(0, width);
  }

  lemma {:induction false} BitsOfZero(width: nat)
    ensures Bits(0, width) == Zeros(width)
  {
    if width > 0 {
      BitsOfZero(width - 1);
    }
  }

  lemma Powers()
    ensures Pow2(5) == 32 && Pow2(8) == 256 && Pow2(32) == U32_MAX + 1
  {
    assert Pow2(12) == 16 * Pow2(8);
    assert Pow2(16) == 16 * Pow2(12);
    assert Pow2(20) == 16 * Pow2(16);
    assert Pow2(24) == 16 * Pow2(20);
    assert Pow2(28) == 16 * Pow2(24);
  }

  // Bytes and symbols as bits.

  function ByteBits(bytes: seq<byte>): (bits: seq<Bit>)
    ensures |bits| == 8 * |bytes|
  {
    if bytes == [] then [] else ByteBits(bytes[..|bytes| - 1]) + Bits(bytes[|bytes| - 1], 8)
  }

  function SymbolBits(symbols: seq<Symbol>): (bits: seq<Bit>)
    ensures |bits| == 5 * |symbols|
  {
    if symbols == [] then [] else SymbolBits(symbols[..|symbols| - 1]) + Bits(symbols[|symbols| - 1], 5)
  }

  lemma ByteOfBits(b: byte)
    ensures Number(Bits(b, 8)) == b
  {
    Powers();
    NumberOfBits(b, 8);
    LowOfSmall(b, 8);
  }

  lemma SymbolOfBits(v: Symbol)
    ensures Number(Bits(v, 5)) == v
  {
    Powers();
    NumberOfBits(v, 5);
    LowOfSmall(v, 5);
  }

  lemma {:induction false} ByteBitsInjective(a: seq<byte>, b: seq<byte>)
    requires ByteBits(a) == ByteBits(b)
    ensures a == b
  {
    if a != [] {
      var m, n := |a| - 1, |b| - 1;
      assert |ByteBits(a)| == |ByteBits(b)|;
      assert ByteBits(a)[..8 * m] == ByteBits(a[..m]) && ByteBits(b)[..8 * n] == ByteBits(b[..n]);
      assert ByteBits(a)[8 * m..] == Bits(a[m], 8) && ByteBits(b)[8 * n..] == Bits(b[n], 8);
      ByteBitsInjective(a[..m], b[..n]);
      ByteOfBits(a[m]);
      ByteOfBits(b[n]);
      assert a == a[..m] + [a[m]] && b == b[..n] + [b[n]];
    }
  }

  lemma {:induction false} SymbolBitsInjective(a: seq<Symbol>, b: seq<Symbol>)
    requires SymbolBits(a) == SymbolBits(b)
    ensures a == b
  {
    if a != [] {
      var m, n := |a| - 1, |b| - 1;
      assert |SymbolBits(a)| == |SymbolBits(b)|;
      assert SymbolBits(a)[..5 * m] == SymbolBits(a[..m]) && SymbolBits(b)[..5 * n] == SymbolBits(b[..n]);
      assert SymbolBits(a)[5 * m..] == Bits(a[m], 5) && SymbolBits(b)[5 * n..] == Bits(b[n], 5);
      SymbolBitsInjective(a[..m], b[..n]);
      SymbolOfBits(a[m]);
      SymbolOfBits(b[n]);
      assert a == a[..m] + [a[m]] && b == b[..n] + [b[n]];
    }
  }

  lemma SymbolBitsPush(symbols: seq<Symbol>, v: Symbol)
    ensures SymbolBits(symbols + [v]) == SymbolBits(symbols) + Bits(v, 5)
  {
    assert (symbols + [v])[..|symbols|] == symbols;
  }

  lemma ByteBitsPush(bytes: seq<byte>, b: byte)
    ensures ByteBits(bytes + [b]) == ByteBits(bytes) + Bits(b, 8)
  {
    assert (bytes + [b])[..|bytes|] == bytes;
  }

  // Characters.

  /** `char::is_whitespace`. */
  predicate IsWhitespace(c: char) {
    var n := c as int;
    || 0x09 <= n <= 0x0d || n == 0x20 || n == 0x85 || n == 0xa0 || n == 0x1680
    || 0x2000 <= n <= 0x200a || n == 0x2028 || n == 0x2029 || n == 0x202f || n == 0x205f || n == 0x3000
  }

  /** `char::to_ascii_uppercase`. */
  function Upper(c: char): char {
    if 'a' <= c <= 'z' then (c as int - 32) as char else c
  }

  function Letter(v: Symbol): char {
    ALPHABET[v]
  }

  /** The alphabet, without the table: letters, then the digits from 2. */
  lemma LetterIs(v: Symbol)
    ensures Letter(v) as int == if v < 26 then 'A' as int + v else '2' as int + v - 26
  {
  }

  /** Where a character stands in the alphabet. */
  function Position(c: char): Option<Symbol> {
    if 'A' <= c <= 'Z' then Some(c as int - 'A' as int)
    else if '2' <= c <= '7' then Some(c as int - '2' as int + 26)
    else Option.None
  }

  lemma PositionInvertsLetter(c: char, v: Symbol)
    ensures Position(c) == Some(v) <==> Letter(v) == c
  {
    LetterIs(v);
  }

  function Letters(symbols: seq<Symbol>): (text: string)
    ensures |text| == |symbols|
  {
    seq(|symbols|, i requires 0 <= i < |symbols| => Letter(symbols[i]))
  }

  /** Every whitespace character of ASCII is one, and none is in the alphabet, in either case. */
  lemma WhitespaceIsApart(c: char)
    ensures c in "\t\n\r " ==> IsWhitespace(c)
    ensures IsWhitespace(c) ==> Position(Upper(c)).None?
  {
  }
}
