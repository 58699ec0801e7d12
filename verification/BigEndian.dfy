/** Big-endian integers, unsigned and in two's complement. */
module BigEndian {
  import opened Words

  function Pow256(n: nat): (p: nat)
    ensures p >= 1
  {
    if n == 0 then 1 else 256 * Pow256(n - 1)
  }

  /** The low `width` bytes of a number, most significant first. */
  function Digits(number: nat, width: nat): (out: seq<byte>)
    ensures |out| == width
  {
    if width == 0 then [] else Digits(number / 256, width - 1) + [number % 256]
  }

  function Number(bytes: seq<byte>): nat {
    if bytes == [] then 0 else Number(bytes[..|bytes| - 1]) * 256 + bytes[|bytes| - 1]
  }

  lemma {:induction false} NumberBound(bytes: seq<byte>)
    ensures Number(bytes) < Pow256(|bytes|)
  {
    if bytes != [] {
      NumberBound(bytes[..|bytes| - 1]);
    }
  }

  lemma {:induction false} NumberOfDigits(number: nat, width: nat)
    requires number < Pow256(width)
    ensures Number(Digits(number, width)) == number
  {
    if width > 0 {
      NumberOfDigits(number / 256, width - 1);
      var d := Digits(number, width);
      assert d[..|d| - 1] == Digits(number / 256, width - 1);
    }
  }

  lemma {:induction false} DigitsOfNumber(bytes: seq<byte>)
    ensures Digits(Number(bytes), |bytes|) == bytes
  {
    if bytes != [] {
      DigitsOfNumber(bytes[..|bytes| - 1]);
      LastDigit(Number(bytes[..|bytes| - 1]), bytes[|bytes| - 1]);
      assert bytes == bytes[..|bytes| - 1] + [bytes[|bytes| - 1]];
    }
  }

  lemma LastDigit(n: nat, b: byte)
    ensures (n * 256 + b) / 256 == n && (n * 256 + b) % 256 == b
  {
  }

  /** Dropping leading bytes leaves the encoding of the remainder. */
  lemma {:induction false} DigitsSuffix(number: nat, width: nat, keep: nat)
    requires keep <= width
    ensures Digits(number, width)[width - keep..] == Digits(number % Pow256(keep), keep)
  {
    if keep > 0 {
      DigitsSuffix(number / 256, width - 1, keep - 1);
      var d := Digits(number, width);
      assert d[width - keep..] == Digits(number / 256, width - 1)[width - keep..] + [number % 256];
      ModStep(number, Pow256(keep - 1));
    }
  }

  lemma ModStep(n: nat, p: nat)
    requires p >= 1
    ensures (n % (256 * p)) / 256 == (n / 256) % p
    ensures (n % (256 * p)) % 256 == n % 256
  {
    var q := n / 256;
    var r := n % 256;
    var a := q / p;
    var b := q % p;
    assert n == 256 * q + r;
    assert q == a * p + b;
    assert n == a * (256 * p) + (256 * b + r) by {
      assert 256 * (a * p) == a * (256 * p);
    }
    assert 256 * b + r < 256 * p;
    ModUnique(n, 256 * p, a, 256 * b + r);
  }

  lemma ModUnique(n: int, m: nat, q: int, r: nat)
    requires m >= 1 && r < m && n == q * m + r
    ensures n / m == q && n % m == r
  {
    var d := n / m - q;
    assert d * m == r - n % m by {
      assert (n / m - q) * m == (n / m) * m - q * m;
    }
    assert 0 < d * m + m && d * m < m;
    assert d >= 1 ==> d * m >= m;
    assert d <= -1 ==> d * m + m <= 0;
  }

  predicate IntWidth(width: nat) {
    width == 1 || width == 2 || width == 4 || width == 8
  }

  /** `i64::to_be_bytes`, with all but the last `width` bytes skipped. */
  function IntBytes(number: i64, width: nat): (out: seq<byte>)
    requires width <= 8
    ensures |out| == width
  {
    Digits(number % TWO_64, 8)[8 - width..]
  }

  /** What bytes mean in two's complement. */
  function TwosComplement(bytes: seq<byte>): int
    requires bytes != []
  {
    Number(bytes) - (if bytes[0] >= 0x80 then Pow256(|bytes|) else 0)
  }

  /** The range of integers that `width` bytes hold. */
  predicate Fits(number: int, width: nat)
    requires IntWidth(width)
  {
    if width == 1 then -0x80 <= number <= 0x7f
    else if width == 2 then -0x8000 <= number <= 0x7fff
    else if width == 4 then -0x8000_0000 <= number <= 0x7fff_ffff
    else -0x8000_0000_0000_0000 <= number <= 0x7fff_ffff_ffff_ffff
  }

  lemma PowValues()
    ensures Pow256(0) == 1 && Pow256(1) == 0x100 && Pow256(2) == 0x1_0000
    ensures Pow256(3) == 0x100_0000 && Pow256(4) == 0x1_0000_0000
    ensures Pow256(7) == 0x100_0000_0000_0000 && Pow256(8) == TWO_64
  {
    assert Pow256(4) == 256 * Pow256(3);
    assert Pow256(6) == 256 * Pow256(5);
    assert Pow256(8) == 256 * Pow256(7);
  }

  lemma {:induction false} LeadingByte(bytes: seq<byte>)
    requires bytes != []
    ensures Pow256(|bytes| - 1) * bytes[0] <= Number(bytes)
    ensures Number(bytes) < Pow256(|bytes| - 1) * bytes[0] + Pow256(|bytes| - 1)
  {
    var init := bytes[..|bytes| - 1];
    if init == [] {
      assert Number(init) == 0;
    } else {
      LeadingByte(init);
      OneDigitMore(Pow256(|init| - 1), bytes[0], Number(init), bytes[|init|]);
    }
  }

  lemma OneDigitMore(p: nat, first: nat, n: nat, last: byte)
    requires p * first <= n < p * first + p
    ensures (256 * p) * first <= n * 256 + last < (256 * p) * first + 256 * p
  {
    assert (256 * p) * first == 256 * (p * first);
  }

  /** Two's complement of a whole number of bytes covers exactly its range. */
  lemma TwosComplementFits(bytes: seq<byte>)
    requires IntWidth(|bytes|)
    ensures Fits(TwosComplement(bytes), |bytes|)
  {
    PowValues();
    LeadingByte(bytes);
    NumberBound(bytes);
  }

  /** The low bytes of an integer that fits, read without a sign. */
  function Unsigned(number: int, width: nat): int {
    if number >= 0 then number else number + Pow256(width)
  }

  /** Wrapping to `p * q` first does not change the remainder by `p`. */
  lemma WrappedRemainder(number: int, p: int, q: int)
    requires p > 0 && q > 0 && -p <= number < p
    ensures (number % (p * q)) % p == if number >= 0 then number else number + p
  {
    assert p * (q - 1) >= 0;
    assert p * q == p * (q - 1) + p;
    if number >= 0 {
      ModUnique(number, p * q, 0, number);
      ModUnique(number, p, 0, number);
    } else {
      ModUnique(number, p * q, -1, number + p * q);
      ModUnique(number + p * q, p, q - 1, number + p);
    }
  }

  lemma LowDigits(number: i64, width: nat)
    requires IntWidth(width) && Fits(number, width)
    ensures 0 <= Unsigned(number, width) < Pow256(width)
    ensures (number % TWO_64) % Pow256(width) == Unsigned(number, width)
    ensures IntBytes(number, width) == Digits(Unsigned(number, width), width)
  {
    PowValues();
    DigitsSuffix(number % TWO_64, 8, width);
    var q := if width == 1 then 0x100_0000_0000_0000 else if width == 2 then 0x1_0000_0000_0000
             else if width == 4 then 0x1_0000_0000 else 1;
    WrappedRemainder(number, Pow256(width), q);
  }

  /** Writing then reading an integer that fits gives it back. */
  lemma IntRoundTrip(number: i64, width: nat)
    requires IntWidth(width) && Fits(number, width)
    ensures TwosComplement(IntBytes(number, width)) == number
  {
    PowValues();
    LowDigits(number, width);
    NumberOfDigits(Unsigned(number, width), width);
    LeadingByte(IntBytes(number, width));
  }

  /** Reading then writing gives the same bytes back. */
  lemma BytesRoundTrip(bytes: seq<byte>)
    requires IntWidth(|bytes|)
    ensures Fits(TwosComplement(bytes), |bytes|)
    ensures IntBytes(TwosComplement(bytes), |bytes|) == bytes
  {
    PowValues();
    TwosComplementFits(bytes);
    LeadingByte(bytes);
    NumberBound(bytes);
    LowDigits(TwosComplement(bytes), |bytes|);
    DigitsOfNumber(bytes);
  }
}
