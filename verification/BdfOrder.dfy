/** What canonical form comes to, in terms of bytes: the order of keys, and what strict mode refuses. */
module BdfOrder {
  import opened Words
  import opened BigEndian
  import opened Bdf
  import opened BdfReader
  import opened BdfTheorems

  // The order of keys.

  /** The first place where two byte strings differ decides; where one ends first, it comes first. */
  ghost predicate Lexicographic(a: seq<byte>, b: seq<byte>) {
    || (|a| < |b| && b[..|a|] == a)
    || exists i :: 0 <= i < |a| && i < |b| && a[..i] == b[..i] && a[i] < b[i]
  }

  lemma {:induction false} FirstDifferenceDecides(a: seq<byte>, b: seq<byte>, i: nat)
    requires i < |a| && i < |b| && a[..i] == b[..i] && a[i] != b[i]
    ensures Before(a, b) <==> a[i] < b[i]
  {
    if i > 0 {
      assert a[0] == a[..i][0] == b[..i][0] == b[0];
      assert a[1..][..i - 1] == a[..i][1..] == b[..i][1..] == b[1..][..i - 1];
      FirstDifferenceDecides(a[1..], b[1..], i - 1);
    }
  }

  lemma {:induction false} PrefixComesFirst(a: seq<byte>, c: seq<byte>)
    requires c != []
    ensures Before(a, a + c)
  {
    if a != [] {
      PrefixComesFirst(a[1..], c);
      assert (a + c)[1..] == a[1..] + c;
    }
  }

  lemma {:induction false} Differ(a: seq<byte>, b: seq<byte>)
    requires a != b
    ensures Lexicographic(a, b) || Lexicographic(b, a)
  {
    if a == [] {
      assert b[..0] == a;
    } else if b == [] {
      assert a[..0] == b;
    } else if a[0] != b[0] {
      assert a[..0] == b[..0];
    } else {
      assert a == [a[0]] + a[1..] && b == [b[0]] + b[1..];
      Differ(a[1..], b[1..]);
      if Lexicographic(a[1..], b[1..]) {
        AlsoLater(a, b);
      } else {
        AlsoLater(b, a);
      }
    }
  }

  lemma AlsoLater(a: seq<byte>, b: seq<byte>)
    requires a != [] && b != [] && a[0] == b[0] && Lexicographic(a[1..], b[1..])
    ensures Lexicographic(a, b)
  {
    var s, t := a[1..], b[1..];
    if |s| < |t| && t[..|s|] == s {
      assert b[..|a|] == [b[0]] + t[..|s|] == a;
    } else {
      var i :| 0 <= i < |s| && i < |t| && s[..i] == t[..i] && s[i] < t[i];
      assert a[..i + 1] == [a[0]] + s[..i] && b[..i + 1] == [b[0]] + t[..i];
      assert a[i + 1] < b[i + 1];
    }
  }

  lemma LexicographicIsBefore(a: seq<byte>, b: seq<byte>)
    requires Lexicographic(a, b)
    ensures Before(a, b)
  {
    if |a| < |b| && b[..|a|] == a {
      PrefixComesFirst(a, b[|a|..]);
      assert b == a + b[|a|..];
    } else {
      var i :| 0 <= i < |a| && i < |b| && a[..i] == b[..i] && a[i] < b[i];
      FirstDifferenceDecides(a, b, i);
    }
  }

  /** The recursive comparison is the lexicographic order. */
  lemma BeforeIsLexicographic(a: seq<byte>, b: seq<byte>)
    ensures Before(a, b) <==> Lexicographic(a, b)
  {
    if Lexicographic(a, b) {
      LexicographicIsBefore(a, b);
    }
    if Before(a, b) {
      BeforeIrreflexive(a);
      Differ(a, b);
      if Lexicographic(b, a) {
        LexicographicIsBefore(b, a);
        BeforeTransitive(a, b, a);
      }
    }
  }

  /** A strict reader tells a key that is there again from one that comes too late. */
  lemma KeyFaultMeans(previous: Text, key: Text)
    ensures KeyFault(true, Some(previous), key) == Some(DuplicateKey) <==> key == previous
    ensures KeyFault(true, Some(previous), key) == Some(KeysOutOfOrder) <==> Lexicographic(key, previous)
    ensures KeyFault(true, Some(previous), key).None? <==> Lexicographic(previous, key)
  {
    BeforeIsLexicographic(previous, key);
    BeforeIsLexicographic(key, previous);
    BeforeIrreflexive(key);
    BeforeTotal(previous, key);
    if Before(previous, key) && Before(key, previous) {
      BeforeTransitive(key, previous, key);
    }
  }

  // Canonical form, at every depth.

  /** A value is somewhere within another, or is it. */
  predicate Within(w: Value, v: Value)
    decreases v
  {
    || w == v
    || (v.List? && exists i :: 0 <= i < |v.items| && Within(w, v.items[i]))
    || (v.Dict? && exists i :: 0 <= i < |v.entries| && Within(w, v.entries[i].value))
  }

  /** Every key comes before every later one, so that no key is there twice. */
  ghost predicate KeysAscend(entries: seq<Entry>) {
    forall i, j :: 0 <= i < j < |entries| ==> Lexicographic(entries[i].key, entries[j].key)
  }

  lemma AdjacentSortedMeans(entries: seq<Entry>)
    ensures AdjacentSorted(entries) <==> KeysAscend(entries)
  {
    if AdjacentSorted(entries) {
      forall i, j | 0 <= i < j < |entries| ensures Lexicographic(entries[i].key, entries[j].key) {
        AdjacentSortedIsSorted(entries, i, j);
        BeforeIsLexicographic(entries[i].key, entries[j].key);
      }
    }
    if KeysAscend(entries) {
      forall i | 0 < i < |entries| ensures Before(entries[i - 1].key, entries[i].key) {
        BeforeIsLexicographic(entries[i - 1].key, entries[i].key);
      }
    }
  }

  lemma {:induction false} CanonicalReaches(w: Value, v: Value)
    requires IsCanonical(v) && Within(w, v)
    ensures IsCanonical(w)
    decreases v
  {
    if w != v {
      if v.List? {
        var i :| 0 <= i < |v.items| && Within(w, v.items[i]);
        CanonicalReaches(w, v.items[i]);
      } else {
        var i :| 0 <= i < |v.entries| && Within(w, v.entries[i].value);
        CanonicalReaches(w, v.entries[i].value);
      }
    }
  }

  lemma {:induction false} AscendingIsCanonical(v: Value)
    requires forall w :: Within(w, v) && w.Dict? ==> KeysAscend(w.entries)
    ensures IsCanonical(v)
    decreases v
  {
    if v.List? {
      forall i | 0 <= i < |v.items| ensures IsCanonical(v.items[i]) {
        forall w | Within(w, v.items[i]) ensures Within(w, v) {
        }
        AscendingIsCanonical(v.items[i]);
      }
    } else if v.Dict? {
      assert Within(v, v);
      AdjacentSortedMeans(v.entries);
      forall i | 0 <= i < |v.entries| ensures IsCanonical(v.entries[i].value) {
        forall w | Within(w, v.entries[i].value) ensures Within(w, v) {
        }
        AscendingIsCanonical(v.entries[i].value);
      }
    }
  }

  /** Canonical is: in every dictionary at every depth, the keys ascend byte by byte. */
  lemma CanonicalMeans(v: Value)
    ensures IsCanonical(v) <==> forall w :: Within(w, v) && w.Dict? ==> KeysAscend(w.entries)
  {
    if IsCanonical(v) {
      forall w | Within(w, v) && w.Dict? ensures KeysAscend(w.entries) {
        CanonicalReaches(w, v);
        AdjacentSortedMeans(w.entries);
      }
    }
    if forall w :: Within(w, v) && w.Dict? ==> KeysAscend(w.entries) {
      AscendingIsCanonical(v);
    }
  }

  /**
   * Exactly what strict reading accepts: the writer's bytes for a value whose
   * dictionaries ascend at every depth and that nests at most 64 deep.
   */
  lemma StrictAcceptsExactly(b: Slice, v: Value)
    ensures FromBytesCanonical(b) == Ok(v) <==>
              && (forall w :: Within(w, v) && w.Dict? ==> KeysAscend(w.entries))
              && Nesting(v) <= 64
              && Encoding(v) == b
  {
    CanonicalMeans(v);
    StrictIsTheCanonicalImage(b, v);
  }

  // What strict mode refuses and lenient mode reads.

  lemma OneScalar(strict: bool, header: byte, body: Slice)
    requires |body| < I64_MAX && header != 0x60 && header != 0x70
    ensures ReadOne([header] + body, strict) == Whole(ReadScalar(strict, header, body))
  {
    var b: Slice := [header] + body;
    assert b[0] == header && b[1..] == body;
  }

  /** An integer reads leniently in every width that holds it, and strictly in the least. */
  lemma WiderIntegers(number: i64, width: byte)
    requires IntWidth(width) && Fits(number, width)
    ensures var b: Slice := [0x20 + width] + IntBytes(number, width);
            && FromBytes(b) == Ok(Int(number))
            && (FromBytesCanonical(b).Ok? <==> width == MinimalIntLength(number))
  {
    var body: Slice := IntBytes(number, width);
    assert body + [] == body;
    ReadsBackSigned(number, width, [], body);
    OneScalar(false, 0x20 + width, body);
    OneScalar(true, 0x20 + width, body);
  }

  lemma WiderSized(bytes: Slice, width: byte, body: Slice)
    requires IntWidth(width) && Fits(|bytes|, width) && body == IntBytes(|bytes|, width) + bytes
    ensures ReadSized(false, body, width) == Ok(Parsed(bytes, []))
    ensures ReadSized(true, body, width)
         == if width == MinimalIntLength(|bytes|) then Ok(Parsed(bytes, []))
            else Err(NonMinimalLength(width, MinimalIntLength(|bytes|)))
  {
    ReadsBackSigned(|bytes|, width, bytes, body);
    ReadsBackBytes(bytes, [], bytes);
  }

  /** So do the lengths of byte strings. */
  lemma WiderRawLengths(bytes: Slice, width: byte)
    requires IntWidth(width) && Fits(|bytes|, width) && |bytes| + width + 1 <= I64_MAX
    ensures var b: Slice := [0x50 + width] + (IntBytes(|bytes|, width) + bytes);
            && FromBytes(b) == Ok(Raw(bytes))
            && (FromBytesCanonical(b).Ok? <==> width == MinimalIntLength(|bytes|))
  {
    var body: Slice := IntBytes(|bytes|, width) + bytes;
    WiderSized(bytes, width, body);
    RawHeader(false, width, body);
    RawHeader(true, width, body);
    OneScalar(false, 0x50 + width, body);
    OneScalar(true, 0x50 + width, body);
  }

  /** And of texts. */
  lemma WiderTextLengths(text: Text, width: byte)
    requires IntWidth(width) && Fits(|text|, width) && |text| + width + 1 <= I64_MAX
    ensures var b: Slice := [0x40 + width] + (IntBytes(|text|, width) + text);
            && FromBytes(b) == Ok(Str(text))
            && (FromBytesCanonical(b).Ok? <==> width == MinimalIntLength(|text|))
  {
    var body: Slice := IntBytes(|text|, width) + text;
    WiderSized(text, width, body);
    StrHeader(false, width, body);
    StrHeader(true, width, body);
    OneScalar(false, 0x40 + width, body);
    OneScalar(true, 0x40 + width, body);
  }

  // The bytes themselves.

  lemma OneByte(n: i64)
    requires -0x80 <= n < 0x80
    ensures IntBytes(n, 1) == [if n >= 0 then n else n + 0x100] && MinimalIntLength(n) == 1
  {
    PowValues();
    LowDigits(n, 1);
    var low := Unsigned(n, 1);
    assert Digits(low, 1) == Digits(low / 256, 0) + [low % 256];
  }

  lemma TwoBytes(high: byte, low: byte)
    requires 0 < high < 0x80
    ensures IntBytes(high * 256 + low, 2) == [high, low] && MinimalIntLength(high * 256 + low) == 2
  {
    var n := high * 256 + low;
    PowValues();
    LowDigits(n, 2);
    LastDigit(high, low);
    assert Digits(high, 1) == Digits(high / 256, 0) + [high % 256];
    assert Digits(n, 2) == Digits(high, 1) + [low];
  }

  /** The bytes of null, truth values and numbers. */
  lemma ScalarsWritten(bits: FloatBits, n: i64, high: byte, low: byte)
    ensures Encoding(Null) == [0x00]
    ensures Encoding(Bool(false)) == [0x10] && Encoding(Bool(true)) == [0x11]
    ensures -0x80 <= n < 0x80 ==> Encoding(Int(n)) == [0x21, if n >= 0 then n else n + 0x100]
    ensures 0 < high < 0x80 ==> Encoding(Int(high * 256 + low)) == [0x22, high, low]
    ensures Encoding(Float(bits)) == [0x38] + bits
  {
    if -0x80 <= n < 0x80 {
      OneByte(n);
    }
    if 0 < high < 0x80 {
      TwoBytes(high, low);
    }
  }

  /** The bytes of texts and byte strings, where the length takes one byte. */
  lemma ShortsWritten(text: Text)
    requires |text| < 0x80
    ensures Encoding(Str(text)) == [0x41, |text|] + text
    ensures Encoding(Raw(text)) == [0x51, |text|] + text
  {
    OneByte(|text|);
    assert [0x41] + [|text|] == [0x41, |text|] && [0x51] + [|text|] == [0x51, |text|];
  }

  /** The bytes of containers, around those of what they hold. */
  lemma ContainersWritten(key: Text, v: Value, w: Value)
    ensures Encoding(List([v, w])) == [0x60] + (Encoding(v) + Encoding(w)) + [0x80]
    ensures Encoding(Dict([Entry(key, v)])) == [0x70] + (Encoding(Str(key)) + Encoding(v)) + [0x80]
  {
    ItemsOfTwo(v, w);
    EntriesOfOne(key, v);
  }

  lemma EntriesOfOne(key: Text, v: Value)
    ensures EncodingEntries([Entry(key, v)]) == Encoding(Str(key)) + Encoding(v)
  {
    assert [Entry(key, v)][1..] == [];
    assert EncodingEntries([Entry(key, v)]) == Encoding(Str(key)) + Encoding(v) + EncodingEntries([]);
  }

  lemma ItemsOfTwo(v: Value, w: Value)
    ensures EncodingItems([v, w]) == Encoding(v) + Encoding(w)
  {
    assert [v, w][1..] == [w] && [w][1..] == [];
    assert EncodingItems([w]) == Encoding(w) + EncodingItems([]);
  }
}
