/** The reader as it runs: a cursor over the input, moved by every step. */
module BdfCursor {
  import opened Words
  import opened BigEndian
  import opened Bdf
  import opened BdfReader

  /** `i64` arithmetic modulo 2^64. */
  function Wrap64(x: int): i64 {
    (x + 0x8000_0000_0000_0000) % TWO_64 - 0x8000_0000_0000_0000
  }

  lemma TwosComplementStep(bytes: seq<byte>, next: byte)
    requires 1 <= |bytes| < 8
    ensures var value := TwosComplement(bytes);
            && -0x80_0000_0000_0000 <= value < 0x80_0000_0000_0000
            && Wrap64(value * 256) + next == TwosComplement(bytes + [next])
  {
    var k := |bytes|;
    PowValues();
    assert Pow256(5) == 256 * Pow256(4) && Pow256(6) == 256 * Pow256(5);
    assert Pow256(k - 1) <= Pow256(6) by {
      PowGrows(k - 1, 6);
    }
    LeadingByte(bytes);
    assert Pow256(k) == 256 * Pow256(k - 1);
    assert (bytes + [next])[..k] == bytes;
    if bytes[0] >= 0x80 {
      assert Pow256(k - 1) * bytes[0] >= Pow256(k - 1) * 0x80;
      assert Pow256(k - 1) * bytes[0] <= Pow256(k - 1) * 0xff;
    } else {
      assert Pow256(k - 1) * bytes[0] <= Pow256(k - 1) * 0x7f;
    }
  }

  lemma FirstByte(s: Slice)
    requires s != []
    ensures TwosComplement(s[..1]) == if s[0] >= 0x80 then s[0] as int - 0x100 else s[0]
  {
    PowValues();
    assert s[..1][..0] == [];
    assert Number([]) == 0;
    assert Number(s[..1]) == s[0];
  }

  lemma NextByte(s: Slice, i: nat)
    requires 1 <= i < |s| && i < 8
    ensures var value := TwosComplement(s[..i]);
            && -0x80_0000_0000_0000 <= value < 0x80_0000_0000_0000
            && Wrap64(value * 256) + s[i] == TwosComplement(s[..i + 1])
  {
    TwosComplementStep(s[..i], s[i]);
    assert s[..i + 1] == s[..i] + [s[i]];
  }

  lemma {:induction false} PowGrows(m: nat, n: nat)
    requires m <= n
    ensures Pow256(m) <= Pow256(n)
  {
    if m < n {
      PowGrows(m, n - 1);
    }
  }

  /** What a loop has pushed so far, in front of what reading on yields. */
  function Prepend<T>(done: seq<T>, r: Outcome<seq<T>>): Outcome<seq<T>> {
    match r
    case Err(error) => Err(error)
    case Ok(p) => Ok(Parsed(done + p.value, p.rest))
  }

  lemma PrependNothing<T>(r: Outcome<seq<T>>)
    ensures Prepend([], r) == r
  {
    if r.Ok? {
      assert [] + r.value.value == r.value.value;
    }
  }

  /** One turn of the list loop. */
  lemma PrependItem(strict: bool, depth: nat, s: Slice, done: seq<Value>)
    requires !AtEnd(s)
    ensures var r := ReadValue(strict, depth, s);
            Prepend(done, ReadItems(strict, depth, s))
              == if r.Err? then Err(r.error)
                 else Prepend(done + [r.value.value], ReadItems(strict, depth, r.value.rest))
  {
    var r := ReadValue(strict, depth, s);
    if r.Ok? {
      var others := ReadItems(strict, depth, r.value.rest);
      if others.Ok? {
        assert done + ([r.value.value] + others.value.value) == (done + [r.value.value]) + others.value.value;
      }
    }
  }

  /** One turn of the dictionary loop. */
  lemma PrependEntry(strict: bool, depth: nat, s: Slice, done: seq<Entry>)
    requires !AtEnd(s)
    ensures var r := ReadEntry(strict, depth, s, LastKey(done));
            Prepend(done, ReadEntries(strict, depth, s, LastKey(done)))
              == if r.Err? then Err(r.error)
                 else Prepend(done + [r.value.value], ReadEntries(strict, depth, r.value.rest, Some(r.value.value.key)))
  {
    var r := ReadEntry(strict, depth, s, LastKey(done));
    if r.Ok? {
      var others := ReadEntries(strict, depth, r.value.rest, Some(r.value.value.key));
      if others.Ok? {
        assert done + ([r.value.value] + others.value.value) == (done + [r.value.value]) + others.value.value;
      }
    }
  }

  function LastKey(entries: seq<Entry>): Option<Text> {
    if entries == [] then Option.None else Some(entries[|entries| - 1].key)
  }

  class Reader {
    const input: Slice
    const strict: bool
    var pos: nat

    ghost predicate Valid()
      reads this
    {
      pos <= |input|
    }

    /** The bytes still to be read. */
    ghost function Ahead(): Slice
      reads this
      requires Valid()
    {
      input[pos..]
    }

    /** The step yielded this, and on success left the cursor before `rest`. */
    ghost predicate Yielded<T(!new)>(r: Result<T, Error>, outcome: Outcome<T>)
      reads this
    {
      && Valid()
      && match outcome
         case Err(error) => r == Err(error)
         case Ok(p) => r == Ok(p.value) && Ahead() == p.rest
    }

    constructor (input: Slice, strict: bool)
      ensures Valid() && this.input == input && this.strict == strict && Ahead() == input
    {
      this.input, this.strict, pos := input, strict, 0;
    }

    method Byte() returns (r: Result<byte, Error>)
      requires Valid()
      modifies this
      ensures Valid()
      ensures if old(Ahead()) == [] then r == Err(Truncated) && pos == old(pos)
              else r == Ok(old(Ahead())[0]) && Ahead() == old(Ahead())[1..]
    {
      if pos >= |input| {
        return Err(Truncated);
      }
      r := Ok(input[pos]);
      pos := pos + 1;
    }

    function Peek(): (next: Option<byte>)
      reads this
      requires Valid()
      ensures next == Some(END) <==> AtEnd(Ahead())
    {
      if pos < |input| then Some(input[pos]) else None
    }

    method Take(count: u64) returns (r: Result<Slice, Error>)
      requires Valid()
      modifies this
      ensures Yielded(r, ReadBytes(old(Ahead()), count))
    {
      var available := |input| - pos;
      if count > available {
        return Err(LengthBeyondInput(count, available));
      }
      var end := pos + count;
      r := Ok(input[pos..end]);
      assert input[pos..][..count] == input[pos..end] && input[pos..][count..] == input[end..];
      pos := end;
    }

    method Signed(length: byte) returns (r: Result<i64, Error>)
      requires Valid()
      modifies this
      ensures Yielded(r, ReadSigned(old(Ahead()), length))
    {
      if !IntWidth(length) {
        return Err(InvalidIntLength(length));
      }
      var value: i64 := 0;
      var first := true;
      ghost var ahead := Ahead();
      for i := 0 to length
        invariant Valid() && i <= |ahead| && Ahead() == ahead[i..]
        invariant first <==> i == 0
        invariant i > 0 ==> value == TwosComplement(ahead[..i])
      {
        var read := Byte();
        if read.Err? {
          return Err(read.error);
        }
        var byte := read.value;
        if first {
          // The first byte carries the sign.
          value := if byte >= 0x80 then byte as int - 0x100 else byte;
          first := false;
          FirstByte(ahead);
        } else {
          NextByte(ahead, i);
          value := Wrap64(value * 256) + byte;
        }
      }
      r := Ok(value);
    }

    method Length(lengthOfLength: byte) returns (r: Result<u64, Error>)
      requires Valid()
      modifies this
      ensures Yielded(r, ReadLength(strict, old(Ahead()), lengthOfLength))
    {
      if !IntWidth(lengthOfLength) {
        return Err(InvalidLengthOfLength(lengthOfLength));
      }
      var signed := Signed(lengthOfLength);
      if signed.Err? {
        return Err(signed.error);
      }
      if strict {
        var minimal := MinimalIntLength(signed.value);
        if minimal != lengthOfLength {
          return Err(NonMinimalLength(lengthOfLength, minimal));
        }
      }
      r := if signed.value < 0 then Err(NegativeLength(signed.value)) else Ok(signed.value);
    }

    method Sized(lengthOfLength: byte) returns (r: Result<Slice, Error>)
      requires Valid()
      modifies this
      ensures Yielded(r, ReadSized(strict, old(Ahead()), lengthOfLength))
    {
      var length :- Length(lengthOfLength);
      r := Take(length);
    }

    /** One level down, or a refusal. */
    method Deeper(depth: nat) returns (r: Result<nat, Error>)
      ensures r == if depth >= MAX_NESTING then Err(TooDeeplyNested) else Ok(depth + 1)
    {
      var next := depth + 1;
      r := if next > MAX_NESTING then Err(TooDeeplyNested) else Ok(next);
    }

    method Scalar(header: byte) returns (r: Result<Value, Error>)
      requires Valid()
      modifies this
      ensures Yielded(r, ReadScalar(strict, header, old(Ahead())))
    {
      var kind, low := header / 16, header % 16;
      if kind == 0 && low == 0 {
        r := Ok(Null);
      } else if kind == 1 && low <= 1 {
        r := Ok(Bool(low == 1));
      } else if kind == 2 {
        var number :- Signed(low);
        if strict {
          var minimal := MinimalIntLength(number);
          if minimal != low {
            return Err(NonMinimalInteger(low, minimal));
          }
        }
        r := Ok(Int(number));
      } else if kind == 3 {
        if low != 8 {
          return Err(InvalidFloatLength(low));
        }
        var bits :- Take(8);
        r := Ok(Float(bits));
      } else if kind == 4 {
        var text :- Sized(low);
        r := if Utf8(text) then Ok(Str(text)) else Err(InvalidUtf8);
      } else if kind == 5 {
        var bytes :- Sized(low);
        r := Ok(Raw(bytes));
      } else if kind == 8 {
        r := Err(UnexpectedEnd);
      } else {
        r := Err(UnknownType(header));
      }
    }

    method Value(depth: nat) returns (r: Result<Value, Error>)
      requires Valid()
      modifies this
      ensures Yielded(r, ReadValue(strict, depth, old(Ahead())))
      ensures r.Ok? ==> old(pos) < pos <= |input|
      decreases |input| - pos, 0
    {
      var header :- Byte();
      if header == 0x60 {
        var below :- Deeper(depth);
        var items :- Items(below);
        r := Ok(List(items));
      } else if header == 0x70 {
        var below :- Deeper(depth);
        var entries :- Entries(below);
        r := Ok(Dict(entries));
      } else {
        r := Scalar(header);
      }
    }

    method Items(depth: nat) returns (r: Result<seq<Value>, Error>)
      requires Valid()
      modifies this
      ensures Yielded(r, ReadItems(strict, depth, old(Ahead())))
      decreases |input| - pos, 1
    {
      var items: seq<Value> := [];
      PrependNothing(ReadItems(strict, depth, Ahead()));
      while Peek() != Some(END)
        invariant old(pos) <= pos && Valid()
        invariant ReadItems(strict, depth, old(Ahead())) == Prepend(items, ReadItems(strict, depth, Ahead()))
        decreases |input| - pos
      {
        PrependItem(strict, depth, Ahead(), items);
        var item :- Value(depth);
        items := items + [item];
      }
      pos := pos + 1;
      r := Ok(items);
      assert items + [] == items;
    }

    method Key(depth: nat, previous: Option<Text>) returns (r: Result<Text, Error>)
      requires Valid()
      modifies this
      ensures Yielded(r, ReadKey(strict, depth, old(Ahead()), previous))
      decreases |input| - pos, 1
    {
      var key :- Value(depth);
      if !key.Str? {
        return Err(KeyNotAString);
      }
      if strict && previous.Some? {
        if key.text == previous.value {
          BeforeIrreflexive(key.text);
          return Err(DuplicateKey);
        } else if !Before(previous.value, key.text) {
          return Err(KeysOutOfOrder);
        }
      }
      r := Ok(key.text);
    }

    method OneEntry(depth: nat, previous: Option<Text>) returns (r: Result<Entry, Error>)
      requires Valid()
      modifies this
      ensures Yielded(r, ReadEntry(strict, depth, old(Ahead()), previous))
      decreases |input| - pos, 2
    {
      var key :- Key(depth, previous);
      var value :- Value(depth);
      r := Ok(Entry(key, value));
    }

    method Entries(depth: nat) returns (r: Result<seq<Entry>, Error>)
      requires Valid()
      modifies this
      ensures Yielded(r, ReadEntries(strict, depth, old(Ahead()), None))
      decreases |input| - pos, 3
    {
      var entries: seq<Entry> := [];
      PrependNothing(ReadEntries(strict, depth, Ahead(), None));
      while Peek() != Some(END)
        invariant old(pos) <= pos && Valid()
        invariant ReadEntries(strict, depth, old(Ahead()), None)
               == Prepend(entries, ReadEntries(strict, depth, Ahead(), LastKey(entries)))
        decreases |input| - pos
      {
        PrependEntry(strict, depth, Ahead(), entries);
        var entry :- OneEntry(depth, LastKey(entries));
        entries := entries + [entry];
      }
      pos := pos + 1;
      r := Ok(entries);
      assert entries + [] == entries;
    }

    /** The value read, if it was all there was. */
    method AtTheEnd(value: Result<Value, Error>, ghost outcome: Outcome<Value>) returns (r: Result<Value, Error>)
      requires Yielded(value, outcome)
      ensures r == Whole(outcome)
    {
      if value.Err? {
        return value;
      }
      var left := |input| - pos;
      r := if left == 0 then value else Err(TrailingBytes(left));
    }
  }

  /** Decodes one object and requires the input to end there. */
  method DecodeOne(input: Slice, strict: bool) returns (r: Result<Value, Error>)
    ensures r == ReadOne(input, strict)
  {
    var reader := new Reader(input, strict);
    ghost var outcome := ReadValue(strict, 0, input);
    var value := reader.Value(0);
    r := reader.AtTheEnd(value, outcome);
  }
}
