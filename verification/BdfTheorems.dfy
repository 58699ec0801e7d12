/**
 * The reader against the writer: what is read back, what strict reading
 * accepts, and why the writer's form is the shortest.
 */
module BdfTheorems {
  import opened Words
  import opened BigEndian
  import opened Bdf
  import opened BdfReader

  // Writing, then reading.

  lemma ReadsBackSigned(number: i64, width: byte, rest: Slice, s: Slice)
    requires IntWidth(width) && Fits(number, width)
    requires s == IntBytes(number, width) + rest
    ensures ReadSigned(s, width) == Ok(Parsed(number, rest))
  {
    IntRoundTrip(number, width);
    assert s[..width] == IntBytes(number, width);
  }

  lemma ReadsBackBytes(bytes: Slice, rest: Slice, s: Slice)
    requires s == bytes + rest
    ensures ReadBytes(s, |bytes|) == Ok(Parsed(bytes, rest))
  {
    assert s[..|bytes|] == bytes && s[|bytes|..] == rest;
  }

  lemma ReadsBackLength(strict: bool, length: nat, rest: Slice, s: Slice)
    requires length <= I64_MAX && s == IntBytes(length, MinimalIntLength(length)) + rest
    ensures ReadLength(strict, s, MinimalIntLength(length)) == Ok(Parsed(length, rest))
  {
    ReadsBackSigned(length, MinimalIntLength(length), rest, s);
  }

  lemma ReadsBackSized(strict: bool, bytes: Slice, rest: Slice, s: Slice)
    requires s == IntBytes(|bytes|, MinimalIntLength(|bytes|)) + bytes + rest
    ensures ReadSized(strict, s, MinimalIntLength(|bytes|)) == Ok(Parsed(bytes, rest))
  {
    var digits := IntBytes(|bytes|, MinimalIntLength(|bytes|));
    assert s == digits + (bytes + rest);
    ReadsBackLength(strict, |bytes|, bytes + rest, s);
    ReadsBackBytes(bytes, rest, bytes + rest);
  }

  lemma ReadsBackInt(strict: bool, number: i64, rest: Slice, s: Slice)
    requires s == Encoding(Int(number)) + rest
    ensures ReadScalar(strict, s[0], s[1..]) == Ok(Parsed(Int(number), rest))
  {
    var width := MinimalIntLength(number);
    assert s[1..] == IntBytes(number, width) + rest;
    ReadsBackSigned(number, width, rest, s[1..]);
  }

  lemma StrHeader(strict: bool, width: byte, body: Slice)
    requires width < 16
    ensures var sized := ReadSized(strict, body, width);
            ReadScalar(strict, 0x40 + width, body)
              == if sized.Err? then Err(sized.error)
                 else if Utf8(sized.value.value) then Ok(Parsed(Str(sized.value.value), sized.value.rest))
                 else Err(InvalidUtf8)
  {
    assert (0x40 + width) / 16 == 4 && (0x40 + width) % 16 == width;
  }

  lemma RawHeader(strict: bool, width: byte, body: Slice)
    requires width < 16
    ensures var sized := ReadSized(strict, body, width);
            ReadScalar(strict, 0x50 + width, body)
              == if sized.Err? then Err(sized.error) else Ok(Parsed(Raw(sized.value.value), sized.value.rest))
  {
    assert (0x50 + width) / 16 == 5 && (0x50 + width) % 16 == width;
  }

  lemma SizedAhead(kind: byte, bytes: Slice, rest: Slice, s: Slice)
    requires kind == 0x40 || kind == 0x50
    requires s == Sized(kind, bytes) + rest
    ensures var width := MinimalIntLength(|bytes|);
            s[0] == kind + width && s[1..] == IntBytes(|bytes|, width) + bytes + rest
  {
  }

  lemma ReadsBackStr(strict: bool, text: Text, rest: Slice, s: Slice)
    requires s == Sized(0x40, text) + rest
    ensures ReadScalar(strict, s[0], s[1..]) == Ok(Parsed(Str(text), rest))
  {
    SizedAhead(0x40, text, rest, s);
    ReadsBackSized(strict, text, rest, s[1..]);
    StrHeader(strict, MinimalIntLength(|text|), s[1..]);
  }

  lemma ReadsBackRaw(strict: bool, bytes: Slice, rest: Slice, s: Slice)
    requires s == Sized(0x50, bytes) + rest
    ensures ReadScalar(strict, s[0], s[1..]) == Ok(Parsed(Raw(bytes), rest))
  {
    SizedAhead(0x50, bytes, rest, s);
    ReadsBackSized(strict, bytes, rest, s[1..]);
    RawHeader(strict, MinimalIntLength(|bytes|), s[1..]);
  }

  lemma ReadsBackScalar(strict: bool, value: Value, rest: Slice, s: Slice)
    requires !value.List? && !value.Dict?
    requires s == Encoding(value) + rest
    ensures s[0] != 0x60 && s[0] != 0x70
    ensures ReadScalar(strict, s[0], s[1..]) == Ok(Parsed(value, rest))
  {
    if value.Int? {
      ReadsBackInt(strict, value.number, rest, s);
    } else if value.Str? {
      ReadsBackStr(strict, value.text, rest, s);
    } else if value.Raw? {
      ReadsBackRaw(strict, value.bytes, rest, s);
    } else if value.Float? {
      assert s[1..] == value.bits + rest;
      assert s[1..][..8] == value.bits && s[1..][8..] == rest;
    } else {
      assert s[1..] == rest;
    }
  }

  lemma ListHeader(items: seq<Value>, rest: Slice, s: Slice)
    requires s == Encoding(List(items)) + rest
    ensures s[0] == 0x60 && s[1..] == EncodingItems(items) + [END] + rest
  {
  }

  lemma DictHeader(entries: seq<Entry>, rest: Slice, s: Slice)
    requires s == Encoding(Dict(entries)) + rest
    ensures s[0] == 0x70 && s[1..] == EncodingEntries(entries) + [END] + rest
  {
  }

  lemma ReadsBackKey(strict: bool, depth: nat, key: Text, previous: Option<Text>, rest: Slice, s: Slice)
    requires strict && previous.Some? ==> Before(previous.value, key)
    requires s == Encoding(Str(key)) + rest
    ensures !AtEnd(s)
    ensures ReadKey(strict, depth, s, previous) == Ok(Parsed(key, rest))
  {
    ReadsBackScalar(strict, Str(key), rest, s);
  }

  /**
   * BDF is self-delimiting: an object followed by anything is read back, and
   * exactly what followed it is left.
   */
  lemma {:induction false} ReadsBack(strict: bool, depth: nat, value: Value, rest: Slice, s: Slice)
    requires depth + Nesting(value) <= MAX_NESTING
    requires strict ==> IsCanonical(value)
    requires s == Encoding(value) + rest
    ensures ReadValue(strict, depth, s) == Ok(Parsed(value, rest))
    decreases value, 0
  {
    if value.List? {
      ListHeader(value.items, rest, s);
      ReadsBackItems(strict, depth + 1, value.items, rest, s[1..]);
    } else if value.Dict? {
      DictHeader(value.entries, rest, s);
      ReadsBackEntries(strict, depth + 1, value.entries, None, rest, s[1..]);
    } else {
      ReadsBackScalar(strict, value, rest, s);
    }
  }

  lemma {:induction false} ReadsBackItems(strict: bool, depth: nat, items: seq<Value>, rest: Slice, s: Slice)
    requires depth + NestingItems(items) <= MAX_NESTING
    requires strict ==> forall i :: 0 <= i < |items| ==> IsCanonical(items[i])
    requires s == EncodingItems(items) + [END] + rest
    ensures ReadItems(strict, depth, s) == Ok(Parsed(items, rest))
    decreases items, 1
  {
    if items == [] {
      assert s[1..] == rest;
    } else {
      var after: Slice := EncodingItems(items[1..]) + [END] + rest;
      assert s == Encoding(items[0]) + after;
      ReadsBack(strict, depth, items[0], after, s);
      ReadsBackItems(strict, depth, items[1..], rest, after);
      assert items == [items[0]] + items[1..];
    }
  }

  /** What a strict reader needs of the entries after a given key. */
  predicate StrictEntries(previous: Option<Text>, entries: seq<Entry>) {
    && AdjacentSorted(entries)
    && (forall i :: 0 <= i < |entries| ==> IsCanonical(entries[i].value))
    && (previous.Some? && entries != [] ==> Before(previous.value, entries[0].key))
  }

  lemma StrictTail(previous: Option<Text>, entries: seq<Entry>)
    requires entries != [] && StrictEntries(previous, entries)
    ensures StrictEntries(Some(entries[0].key), entries[1..])
  {
    var tail := entries[1..];
    forall i | 0 < i < |tail| ensures Before(tail[i - 1].key, tail[i].key) {
      assert Before(entries[i].key, entries[i + 1].key);
    }
    if tail != [] {
      assert Before(entries[1 - 1].key, entries[1].key);
    }
  }

  lemma Regroup(a: seq<byte>, b: seq<byte>, c: seq<byte>, d: seq<byte>, e: seq<byte>)
    ensures (a + b + c) + d + e == a + (b + (c + d + e))
  {
  }

  lemma EntryStep(
    strict: bool, depth: nat, s: Slice, previous: Option<Text>, key: Parsed<Text>, value: Parsed<Value>)
    requires ReadKey(strict, depth, s, previous) == Ok(key)
    requires ReadValue(strict, depth, key.rest) == Ok(value)
    ensures ReadEntry(strict, depth, s, previous) == Ok(Parsed(Entry(key.value, value.value), value.rest))
  {
  }

  lemma EntriesStep(
    strict: bool, depth: nat, s: Slice, previous: Option<Text>, first: Parsed<Entry>, others: Parsed<seq<Entry>>)
    requires !AtEnd(s)
    requires ReadEntry(strict, depth, s, previous) == Ok(first)
    requires ReadEntries(strict, depth, first.rest, Some(first.value.key)) == Ok(others)
    ensures ReadEntries(strict, depth, s, previous) == Ok(Parsed([first.value] + others.value, others.rest))
  {
  }

  lemma {:induction false} ReadsBackEntries(
    strict: bool, depth: nat, entries: seq<Entry>, previous: Option<Text>, rest: Slice, s: Slice)
    requires depth + NestingEntries(entries) <= MAX_NESTING
    requires strict ==> StrictEntries(previous, entries)
    requires s == EncodingEntries(entries) + [END] + rest
    ensures ReadEntries(strict, depth, s, previous) == Ok(Parsed(entries, rest))
    decreases entries, 1
  {
    if entries == [] {
      assert s[1..] == rest;
    } else {
      var Entry(key, value) := entries[0];
      var tail := entries[1..];
      var afterValue: Slice := EncodingEntries(tail) + [END] + rest;
      var afterKey: Slice := Encoding(value) + afterValue;
      assert EncodingEntries(entries) == Encoding(Str(key)) + Encoding(value) + EncodingEntries(tail);
      Regroup(Encoding(Str(key)), Encoding(value), EncodingEntries(tail), [END], rest);
      if strict {
        StrictTail(previous, entries);
      }
      ReadsBackKey(strict, depth, key, previous, afterKey, s);
      ReadsBack(strict, depth, value, afterValue, afterKey);
      ReadsBackEntries(strict, depth, tail, Some(key), rest, afterValue);
      EntryStep(strict, depth, s, previous, Parsed(key, afterKey), Parsed(value, afterValue));
      EntriesStep(strict, depth, s, previous, Parsed(entries[0], afterValue), Parsed(tail, rest));
      assert entries == [Entry(key, value)] + tail;
    }
  }

  // Reading, then writing.

  /**
   * Reading took at least as many bytes as `encoding` has. When it took no
   * more, or was strict, it took exactly these bytes.
   */
  predicate Took(strict: bool, s: seq<byte>, encoding: seq<byte>, rest: seq<byte>) {
    && |encoding| + |rest| <= |s|
    && (strict || |encoding| + |rest| == |s| ==> s == encoding + rest)
  }

  lemma TookBoth(strict: bool, s: seq<byte>, a: seq<byte>, middle: seq<byte>, b: seq<byte>, rest: seq<byte>)
    requires Took(strict, s, a, middle) && Took(strict, middle, b, rest)
    ensures Took(strict, s, a + b, rest)
  {
    if strict || |a + b| + |rest| == |s| {
      assert s == a + (b + rest) == (a + b) + rest;
    }
  }

  lemma TookOneMore(strict: bool, s: seq<byte>, header: byte, body: seq<byte>, rest: seq<byte>)
    requires s != [] && s[0] == header && Took(strict, s[1..], body, rest)
    ensures Took(strict, s, [header] + body, rest)
  {
    if strict || 1 + |body| + |rest| == |s| {
      assert s == [header] + s[1..];
      assert [header] + (body + rest) == ([header] + body) + rest;
    }
  }

  lemma SignedShape(s: Slice, width: byte)
    requires ReadSigned(s, width).Ok?
    ensures var p := ReadSigned(s, width).value;
            && Fits(p.value, width)
            && s == IntBytes(p.value, width) + p.rest
  {
    BytesRoundTrip(s[..width]);
    assert s == s[..width] + s[width..];
  }

  lemma IntShape(strict: bool, s: Slice, header: byte)
    requires s != [] && s[0] == header && header / 16 == 2 && ReadScalar(strict, header, s[1..]).Ok?
    ensures var p := ReadScalar(strict, header, s[1..]).value;
            p.value.Int? && Took(strict, s, Encoding(p.value), p.rest)
  {
    var low := header % 16;
    SignedShape(s[1..], low);
    var p := ReadSigned(s[1..], low).value;
    var width := MinimalIntLength(p.value);
    if width == low {
      TookOneMore(strict, s, header, IntBytes(p.value, low), p.rest);
    }
  }

  lemma SizedShape(strict: bool, s: Slice, width: byte)
    requires ReadSized(strict, s, width).Ok?
    ensures var p := ReadSized(strict, s, width).value;
            var minimal := MinimalIntLength(|p.value|);
            && |s| == width + |p.value| + |p.rest|
            && minimal <= width && (strict ==> minimal == width)
            && (minimal == width ==> s == IntBytes(|p.value|, minimal) + p.value + p.rest)
  {
    SignedShape(s, width);
    var length := ReadSigned(s, width).value;
    var p := ReadSized(strict, s, width).value;
    assert length.rest == p.value + p.rest;
    assert IntBytes(|p.value|, width) + length.rest == IntBytes(|p.value|, width) + p.value + p.rest;
  }

  lemma SizedIsHeaded(kind: byte, bytes: Slice)
    requires kind == 0x40 || kind == 0x50
    ensures var width := MinimalIntLength(|bytes|);
            Sized(kind, bytes) == [kind + width] + (IntBytes(|bytes|, width) + bytes)
  {
  }

  lemma SizedTook(strict: bool, s: Slice, kind: byte, width: byte, p: Parsed<Slice>)
    requires kind == 0x40 || kind == 0x50
    requires width < 16 && s != [] && s[0] == kind + width
    requires ReadSized(strict, s[1..], width) == Ok(p)
    ensures Took(strict, s, Sized(kind, p.value), p.rest)
  {
    SizedShape(strict, s[1..], width);
    var minimal := MinimalIntLength(|p.value|);
    SizedIsHeaded(kind, p.value);
    if minimal == width {
      TookOneMore(strict, s, s[0], IntBytes(|p.value|, minimal) + p.value, p.rest);
    }
  }

  lemma StrShape(strict: bool, s: Slice)
    requires s != [] && s[0] / 16 == 4 && ReadScalar(strict, s[0], s[1..]).Ok?
    ensures var p := ReadScalar(strict, s[0], s[1..]).value;
            p.value.Str? && Took(strict, s, Sized(0x40, p.value.text), p.rest)
  {
    SizedTook(strict, s, 0x40, s[0] % 16, ReadSized(strict, s[1..], s[0] % 16).value);
  }

  lemma RawShape(strict: bool, s: Slice)
    requires s != [] && s[0] / 16 == 5 && ReadScalar(strict, s[0], s[1..]).Ok?
    ensures var p := ReadScalar(strict, s[0], s[1..]).value;
            p.value.Raw? && Took(strict, s, Sized(0x50, p.value.bytes), p.rest)
  {
    SizedTook(strict, s, 0x50, s[0] % 16, ReadSized(strict, s[1..], s[0] % 16).value);
  }

  lemma FloatShape(strict: bool, s: Slice)
    requires s != [] && s[0] / 16 == 3 && ReadScalar(strict, s[0], s[1..]).Ok?
    ensures var p := ReadScalar(strict, s[0], s[1..]).value;
            p.value.Float? && Took(strict, s, Encoding(p.value), p.rest)
  {
    assert s[1..] == s[1..][..8] + s[1..][8..];
    TookOneMore(strict, s, s[0], s[1..][..8], s[1..][8..]);
  }

  lemma OneByteShape(strict: bool, s: Slice)
    requires s != [] && s[0] / 16 !in {2, 3, 4, 5} && ReadScalar(strict, s[0], s[1..]).Ok?
    ensures var p := ReadScalar(strict, s[0], s[1..]).value;
            (p.value.Null? || p.value.Bool?) && Took(strict, s, Encoding(p.value), p.rest)
  {
    assert s == [s[0]] + s[1..];
  }

  lemma ScalarShape(strict: bool, s: Slice)
    requires s != [] && ReadScalar(strict, s[0], s[1..]).Ok?
    ensures var p := ReadScalar(strict, s[0], s[1..]).value;
            && !p.value.List? && !p.value.Dict?
            && Took(strict, s, Encoding(p.value), p.rest)
  {
    if s[0] / 16 == 2 {
      IntShape(strict, s, s[0]);
    } else if s[0] / 16 == 3 {
      FloatShape(strict, s);
    } else if s[0] / 16 == 4 {
      StrShape(strict, s);
    } else if s[0] / 16 == 5 {
      RawShape(strict, s);
    } else {
      OneByteShape(strict, s);
    }
  }

  lemma ListShape(strict: bool, depth: nat, s: Slice)
    requires s != [] && s[0] == 0x60 && depth < MAX_NESTING
    requires ReadItems(strict, depth + 1, s[1..]).Ok?
    requires var p := ReadItems(strict, depth + 1, s[1..]).value;
             Took(strict, s[1..], EncodingItems(p.value) + [END], p.rest)
    ensures var p := ReadItems(strict, depth + 1, s[1..]).value;
            && ReadValue(strict, depth, s) == Ok(Parsed(List(p.value), p.rest))
            && Took(strict, s, Encoding(List(p.value)), p.rest)
  {
    var p := ReadItems(strict, depth + 1, s[1..]).value;
    TookOneMore(strict, s, 0x60, EncodingItems(p.value) + [END], p.rest);
    assert [0x60] + (EncodingItems(p.value) + [END]) == Encoding(List(p.value));
  }

  lemma DictShape(strict: bool, depth: nat, s: Slice)
    requires s != [] && s[0] == 0x70 && depth < MAX_NESTING
    requires ReadEntries(strict, depth + 1, s[1..], None).Ok?
    requires var p := ReadEntries(strict, depth + 1, s[1..], None).value;
             Took(strict, s[1..], EncodingEntries(p.value) + [END], p.rest)
    ensures var p := ReadEntries(strict, depth + 1, s[1..], None).value;
            && ReadValue(strict, depth, s) == Ok(Parsed(Dict(p.value), p.rest))
            && Took(strict, s, Encoding(Dict(p.value)), p.rest)
  {
    var p := ReadEntries(strict, depth + 1, s[1..], None).value;
    TookOneMore(strict, s, 0x70, EncodingEntries(p.value) + [END], p.rest);
    assert [0x70] + (EncodingEntries(p.value) + [END]) == Encoding(Dict(p.value));
  }

  /**
   * What reading a value says about the bytes it took: they are no fewer than
   * the writer's, and the writer's own when they are as few or reading was
   * strict. No container opened below the nesting limit.
   */
  lemma {:induction false} ValueShape(strict: bool, depth: nat, s: Slice)
    requires depth <= MAX_NESTING && ReadValue(strict, depth, s).Ok?
    ensures var p := ReadValue(strict, depth, s).value;
            && depth + Nesting(p.value) <= MAX_NESTING
            && (strict ==> IsCanonical(p.value))
            && Took(strict, s, Encoding(p.value), p.rest)
    decreases |s|, 0
  {
    if s[0] == 0x60 {
      ItemsShape(strict, depth + 1, s[1..]);
      ListShape(strict, depth, s);
    } else if s[0] == 0x70 {
      EntriesShape(strict, depth + 1, s[1..], None);
      DictShape(strict, depth, s);
    } else {
      ScalarShape(strict, s);
    }
  }

  lemma {:induction false} ItemsShape(strict: bool, depth: nat, s: Slice)
    requires depth <= MAX_NESTING && ReadItems(strict, depth, s).Ok?
    ensures var p := ReadItems(strict, depth, s).value;
            && depth + NestingItems(p.value) <= MAX_NESTING
            && (strict ==> forall i :: 0 <= i < |p.value| ==> IsCanonical(p.value[i]))
            && Took(strict, s, EncodingItems(p.value) + [END], p.rest)
    decreases |s|, 1
  {
    if AtEnd(s) {
      assert s == [END] + s[1..];
      assert EncodingItems([]) + [END] == [END];
    } else {
      var first := ReadValue(strict, depth, s).value;
      var others := ReadItems(strict, depth, first.rest).value;
      ValueShape(strict, depth, s);
      ItemsShape(strict, depth, first.rest);
      TookBoth(strict, s, Encoding(first.value), first.rest, EncodingItems(others.value) + [END], others.rest);
      ItemsCons(first.value, others.value);
    }
  }

  lemma ItemsCons(first: Value, others: seq<Value>)
    ensures NestingItems([first] + others) == Max(Nesting(first), NestingItems(others))
    ensures EncodingItems([first] + others) + [END] == Encoding(first) + (EncodingItems(others) + [END])
  {
    var items := [first] + others;
    assert items[0] == first && items[1..] == others;
  }

  lemma EntriesCons(first: Entry, others: seq<Entry>)
    ensures NestingEntries([first] + others) == Max(Nesting(first.value), NestingEntries(others))
    ensures EncodingEntries([first] + others) + [END] == EncodingEntry(first) + (EncodingEntries(others) + [END])
  {
    var entries := [first] + others;
    assert entries[0] == first && entries[1..] == others;
    assert EncodingEntries(entries) == EncodingEntry(first) + EncodingEntries(others);
  }

  lemma StrictCons(previous: Option<Text>, first: Entry, others: seq<Entry>)
    requires previous.Some? ==> Before(previous.value, first.key)
    requires IsCanonical(first.value) && StrictEntries(Some(first.key), others)
    ensures StrictEntries(previous, [first] + others)
  {
    var entries := [first] + others;
    forall i | 0 < i < |entries| ensures Before(entries[i - 1].key, entries[i].key) {
      if i > 1 {
        assert Before(others[i - 2].key, others[i - 1].key);
      }
    }
  }

  lemma KeyShape(strict: bool, depth: nat, s: Slice, previous: Option<Text>)
    requires ReadKey(strict, depth, s, previous).Ok?
    ensures var p := ReadKey(strict, depth, s, previous).value;
            && (strict && previous.Some? ==> Before(previous.value, p.value))
            && Took(strict, s, Encoding(Str(p.value)), p.rest)
  {
    ScalarShape(strict, s);
  }

  function EncodingEntry(entry: Entry): seq<byte> {
    Encoding(Str(entry.key)) + Encoding(entry.value)
  }

  lemma {:induction false} EntryShape(strict: bool, depth: nat, s: Slice, previous: Option<Text>)
    requires depth <= MAX_NESTING && ReadEntry(strict, depth, s, previous).Ok?
    ensures var p := ReadEntry(strict, depth, s, previous).value;
            && depth + Nesting(p.value.value) <= MAX_NESTING
            && (strict && previous.Some? ==> Before(previous.value, p.value.key))
            && (strict ==> IsCanonical(p.value.value))
            && Took(strict, s, EncodingEntry(p.value), p.rest)
    decreases |s|, 2
  {
    var key := ReadKey(strict, depth, s, previous).value;
    var value := ReadValue(strict, depth, key.rest).value;
    KeyShape(strict, depth, s, previous);
    ValueShape(strict, depth, key.rest);
    TookBoth(strict, s, Encoding(Str(key.value)), key.rest, Encoding(value.value), value.rest);
  }

  lemma {:induction false} EntriesShape(strict: bool, depth: nat, s: Slice, previous: Option<Text>)
    requires depth <= MAX_NESTING && ReadEntries(strict, depth, s, previous).Ok?
    ensures var p := ReadEntries(strict, depth, s, previous).value;
            && depth + NestingEntries(p.value) <= MAX_NESTING
            && (strict ==> StrictEntries(previous, p.value))
            && Took(strict, s, EncodingEntries(p.value) + [END], p.rest)
    decreases |s|, 3
  {
    if AtEnd(s) {
      assert s == [END] + s[1..];
      assert EncodingEntries([]) + [END] == [END];
    } else {
      var first := ReadEntry(strict, depth, s, previous).value;
      var others := ReadEntries(strict, depth, first.rest, Some(first.value.key)).value;
      EntryShape(strict, depth, s, previous);
      EntriesShape(strict, depth, first.rest, Some(first.value.key));
      TookBoth(strict, s, EncodingEntry(first.value), first.rest, EncodingEntries(others.value) + [END], others.rest);
      EntriesCons(first.value, others.value);
      if strict {
        StrictCons(previous, first.value, others.value);
      }
    }
  }

  // What this says about whole byte strings.

  /** Strict reading accepts exactly the writer's image of the canonical values. */
  lemma {:induction false} StrictIsTheCanonicalImage(b: Slice, v: Value)
    ensures FromBytesCanonical(b) == Ok(v)
       <==> IsCanonical(v) && Nesting(v) <= MAX_NESTING && Encoding(v) == b
  {
    if FromBytesCanonical(b) == Ok(v) {
      ValueShape(true, 0, b);
    }
    if IsCanonical(v) && Nesting(v) <= MAX_NESTING && Encoding(v) == b {
      ReadsBack(true, 0, v, [], b);
    }
  }

  /** No two byte strings strictly decode to one value, and no one to two. */
  lemma StrictIsInjective(b: Slice, c: Slice)
    requires FromBytesCanonical(b).Ok?
    ensures FromBytesCanonical(b) == FromBytesCanonical(c) <==> b == c
  {
    StrictIsTheCanonicalImage(b, FromBytesCanonical(b).value);
    if FromBytesCanonical(c).Ok? {
      StrictIsTheCanonicalImage(c, FromBytesCanonical(c).value);
    }
  }

  /**
   * The writer is the unique shortest encoder: of all the byte strings that
   * read as a value, its own is the only one that is no longer than its own,
   * and it reads as that value too.
   */
  lemma WriterIsShortest(b: Slice, v: Value)
    requires FromBytes(b) == Ok(v)
    ensures |Encoding(v)| <= |b|
    ensures |Encoding(v)| == |b| <==> Encoding(v) == b
    ensures FromBytes(Encoding(v)) == Ok(v)
  {
    ValueShape(false, 0, b);
    ReadsBack(false, 0, v, [], Encoding(v));
  }

  /** Lenient reading reads back whatever nests no deeper than the limit, and only that. */
  lemma LenientReadsWhatIsWritten(v: Value)
    requires |Encoding(v)| <= I64_MAX
    ensures FromBytes(Encoding(v)) == Ok(v) <==> Nesting(v) <= MAX_NESTING
  {
    if FromBytes(Encoding(v)) == Ok(v) {
      ValueShape(false, 0, Encoding(v));
    }
    if Nesting(v) <= MAX_NESTING {
      ReadsBack(false, 0, v, [], Encoding(v));
    }
  }

  /** Strict mode refuses more, and changes nothing it accepts: it is lenient reading of canonical bytes. */
  lemma StrictRefinesLenient(b: Slice, v: Value)
    ensures FromBytesCanonical(b) == Ok(v)
       <==> FromBytes(b) == Ok(v) && IsCanonical(v) && Encoding(v) == b
  {
    StrictIsTheCanonicalImage(b, v);
    if FromBytes(b) == Ok(v) {
      ValueShape(false, 0, b);
    }
    if FromBytesCanonical(b) == Ok(v) {
      ReadsBack(false, 0, v, [], b);
    }
  }

  /** No written object is a proper prefix of another. */
  lemma WrittenObjectsArePrefixFree(v: Value, w: Value)
    requires Nesting(v) <= MAX_NESTING && Nesting(w) <= MAX_NESTING
    requires |Encoding(w)| <= I64_MAX
    ensures Encoding(v) <= Encoding(w) <==> v == w
  {
    if Encoding(v) <= Encoding(w) {
      var rest: Slice := Encoding(w)[|Encoding(v)|..];
      ReadsBack(false, 0, v, rest, Encoding(w));
      ReadsBack(false, 0, w, [], Encoding(w));
    }
  }
}
