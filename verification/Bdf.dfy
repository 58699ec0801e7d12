/**
 * Binary Data Format, version 1: the values, their canonical form, and the
 * byte string the writer produces for each.
 */
module Bdf {
  import opened Words
  import opened BigEndian

  const MAX_NESTING: nat := 64
  const END: byte := 0x80

  /** A floating-point number, as its IEEE 754 bit pattern. */
  type FloatBits = s: seq<byte> | |s| == 8 witness seq(8, _ => 0)

  /** A string, as its UTF-8 bytes. */
  type Text = s: seq<byte> | |s| <= I64_MAX && Utf8(s)

  /** An object. A dictionary keeps its entries in wire order. */
  datatype Value =
    | Null
    | Bool(truth: bool)
    | Int(number: i64)
    | Float(bits: FloatBits)
    | Str(text: Text)
    | Raw(bytes: Slice)
    | List(items: seq<Value>)
    | Dict(entries: seq<Entry>)

  datatype Entry = Entry(key: Text, value: Value)

  predicate Continuation(b: byte) {
    0x80 <= b <= 0xbf
  }

  /** How many bytes the scalar value at an index takes, or 0 when there is none. */
  function ScalarLength(s: seq<byte>, at: nat): (n: nat)
    requires at < |s|
    ensures at + n <= |s|
  {
    var left := |s| - at;
    if s[at] <= 0x7f then 1
    else if 0xc2 <= s[at] <= 0xdf then
      if left >= 2 && Continuation(s[at + 1]) then 2 else 0
    else if 0xe0 <= s[at] <= 0xef then
      var low := if s[at] == 0xe0 then 0xa0 else 0x80;
      var high := if s[at] == 0xed then 0x9f else 0xbf;
      if left >= 3 && low <= s[at + 1] <= high && Continuation(s[at + 2]) then 3 else 0
    else if 0xf0 <= s[at] <= 0xf4 then
      var low := if s[at] == 0xf0 then 0x90 else 0x80;
      var high := if s[at] == 0xf4 then 0x8f else 0xbf;
      if left >= 4 && low <= s[at + 1] <= high && Continuation(s[at + 2]) && Continuation(s[at + 3]) then 4 else 0
    else 0
  }

  predicate Utf8From(s: seq<byte>, at: nat)
    requires at <= |s|
    decreases |s| - at
  {
    at == |s| || (ScalarLength(s, at) > 0 && Utf8From(s, at + ScalarLength(s, at)))
  }

  predicate Utf8(s: seq<byte>) {
    Utf8From(s, 0)
  }

  /** Lexicographic order of byte strings. */
  predicate Before(a: seq<byte>, b: seq<byte>) {
    b != [] && (a == [] || a[0] < b[0] || (a[0] == b[0] && Before(a[1..], b[1..])))
  }

  /** The least width that holds the number. */
  function MinimalIntLength(number: i64): (width: byte)
    ensures IntWidth(width)
    ensures forall w: nat :: IntWidth(w) ==> (Fits(number, w) <==> width <= w)
  {
    if -0x80 <= number <= 0x7f then 1
    else if -0x8000 <= number <= 0x7fff then 2
    else if -0x8000_0000 <= number <= 0x7fff_ffff then 4
    else 8
  }

  predicate AdjacentSorted(entries: seq<Entry>) {
    forall i :: 0 < i < |entries| ==> Before(entries[i - 1].key, entries[i].key)
  }

  predicate IsCanonical(value: Value) {
    match value
    case List(items) => forall i :: 0 <= i < |items| ==> IsCanonical(items[i])
    case Dict(entries) =>
      AdjacentSorted(entries) && forall i :: 0 <= i < |entries| ==> IsCanonical(entries[i].value)
    case _ => true
  }

  function Max(a: nat, b: nat): nat {
    if a >= b then a else b
  }

  /** How many containers are open at the deepest point. */
  function Nesting(value: Value): nat
    decreases value, 0
  {
    match value
    case List(items) => 1 + NestingItems(items)
    case Dict(entries) => 1 + NestingEntries(entries)
    case _ => 0
  }

  function NestingItems(items: seq<Value>): nat
    decreases items, 1
  {
    if items == [] then 0 else Max(Nesting(items[0]), NestingItems(items[1..]))
  }

  function NestingEntries(entries: seq<Entry>): nat
    decreases entries, 1
  {
    if entries == [] then 0 else Max(Nesting(entries[0].value), NestingEntries(entries[1..]))
  }

  /**
   * What the writer writes for a value. No object starts with the End byte, so
   * the end of a container is never mistaken for an item.
   */
  function Encoding(value: Value): (out: seq<byte>)
    ensures out != [] && out[0] < END
    decreases value, 0
  {
    match value
    case Null => [0x00]
    case Bool(truth) => [if truth then 0x11 else 0x10]
    case Int(number) => [0x20 + MinimalIntLength(number)] + IntBytes(number, MinimalIntLength(number))
    case Float(bits) => [0x38] + bits
    case Str(text) => Sized(0x40, text)
    case Raw(bytes) => Sized(0x50, bytes)
    case List(items) => [0x60] + EncodingItems(items) + [END]
    case Dict(entries) => [0x70] + EncodingEntries(entries) + [END]
  }

  function EncodingItems(items: seq<Value>): seq<byte>
    decreases items, 1
  {
    if items == [] then [] else Encoding(items[0]) + EncodingItems(items[1..])
  }

  function EncodingEntries(entries: seq<Entry>): seq<byte>
    decreases entries, 1
  {
    if entries == [] then []
    else Sized(0x40, entries[0].key) + Encoding(entries[0].value) + EncodingEntries(entries[1..])
  }

  /** A string or raw value: the length of the length, the length, the bytes. */
  function Sized(kind: byte, bytes: Slice): seq<byte>
    requires kind == 0x40 || kind == 0x50
  {
    [kind + MinimalIntLength(|bytes|)] + IntBytes(|bytes|, MinimalIntLength(|bytes|)) + bytes
  }

  // Order facts.

  lemma {:induction false} BeforeIrreflexive(a: seq<byte>)
    ensures !Before(a, a)
  {
    if a != [] {
      BeforeIrreflexive(a[1..]);
    }
  }

  lemma {:induction false} BeforeTransitive(a: seq<byte>, b: seq<byte>, c: seq<byte>)
    requires Before(a, b) && Before(b, c)
    ensures Before(a, c)
  {
    if a != [] && a[0] == b[0] == c[0] {
      BeforeTransitive(a[1..], b[1..], c[1..]);
    }
  }

  /** Any two byte strings are ordered one way or the other, unless equal. */
  lemma {:induction false} BeforeTotal(a: seq<byte>, b: seq<byte>)
    ensures Before(a, b) || a == b || Before(b, a)
  {
    if a != [] && b != [] && a[0] == b[0] {
      BeforeTotal(a[1..], b[1..]);
      assert a == [a[0]] + a[1..] && b == [b[0]] + b[1..];
    }
  }

  /**
   * Comparing each key with its predecessor orders all of them, and so makes
   * every key of a canonical dictionary unique.
   */
  lemma {:induction false} AdjacentSortedIsSorted(entries: seq<Entry>, i: nat, j: nat)
    requires AdjacentSorted(entries) && i < j < |entries|
    ensures Before(entries[i].key, entries[j].key)
    ensures entries[i].key != entries[j].key
  {
    if i + 1 < j {
      AdjacentSortedIsSorted(entries, i, j - 1);
      BeforeTransitive(entries[i].key, entries[j - 1].key, entries[j].key);
    }
    BeforeIrreflexive(entries[i].key);
  }
}
