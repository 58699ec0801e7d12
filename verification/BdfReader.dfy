/** Decoding BDF objects: what the reader yields for the bytes still ahead of it. */
module BdfReader {
  import opened Words
  import opened BigEndian
  import opened Bdf

  datatype Error =
    | Truncated
    | UnknownType(header: byte)
    | InvalidIntLength(length: byte)
    | InvalidFloatLength(length: byte)
    | InvalidLengthOfLength(length: byte)
    | NegativeLength(meaning: i64)
    | LengthBeyondInput(needed: u64, available: nat)
    | InvalidUtf8
    | UnexpectedEnd
    | KeyNotAString
    | TooDeeplyNested
    | TrailingBytes(left: nat)
    | NonMinimalInteger(used: byte, minimal: byte)
    | NonMinimalLength(used: byte, minimal: byte)
    | KeysOutOfOrder
    | DuplicateKey

  /** Something read, and what is left of the input after it. */
  datatype Parsed<+T> = Parsed(value: T, rest: Slice)

  type Outcome<+T> = Result<Parsed<T>, Error>

  function ReadSigned(s: Slice, width: byte): (r: Outcome<i64>)
    ensures r.Ok? ==> IntWidth(width) && width <= |s| && r.value.rest == s[width..]
  {
    if !IntWidth(width) then Err(InvalidIntLength(width))
    else if width > |s| then Err(Truncated)
    else
      TwosComplementFits(s[..width]);
      Ok(Parsed(TwosComplement(s[..width]), s[width..]))
  }

  function ReadLength(strict: bool, s: Slice, width: byte): (r: Outcome<u64>)
    ensures r.Ok? ==> IntWidth(width) && width <= |s| && r.value.rest == s[width..]
  {
    if !IntWidth(width) then Err(InvalidLengthOfLength(width))
    else
      var signed :- ReadSigned(s, width);
      if strict && MinimalIntLength(signed.value) != width then
        Err(NonMinimalLength(width, MinimalIntLength(signed.value)))
      else if signed.value < 0 then Err(NegativeLength(signed.value))
      else Ok(Parsed(signed.value, signed.rest))
  }

  function ReadBytes(s: Slice, count: u64): (r: Outcome<Slice>)
    ensures r.Ok? ==> count <= |s| && r.value == Parsed(s[..count], s[count..])
  {
    if count > |s| then Err(LengthBeyondInput(count, |s|)) else Ok(Parsed(s[..count], s[count..]))
  }

  function ReadSized(strict: bool, s: Slice, width: byte): (r: Outcome<Slice>)
    ensures r.Ok? ==> |r.value.rest| < |s|
  {
    var length :- ReadLength(strict, s, width);
    ReadBytes(length.rest, length.value)
  }

  /** Every object that is not a container, and every header that is no object. */
  function ReadScalar(strict: bool, header: byte, body: Slice): (r: Outcome<Value>)
    ensures r.Ok? ==> |r.value.rest| <= |body|
  {
    var kind, low := header / 16, header % 16;
    if kind == 0 && low == 0 then Ok(Parsed(Null, body))
    else if kind == 1 && low <= 1 then Ok(Parsed(Bool(low == 1), body))
    else if kind == 2 then
      var number :- ReadSigned(body, low);
      if strict && MinimalIntLength(number.value) != low then
        Err(NonMinimalInteger(low, MinimalIntLength(number.value)))
      else Ok(Parsed(Int(number.value), number.rest))
    else if kind == 3 then
      if low != 8 then Err(InvalidFloatLength(low))
      else
        var bits :- ReadBytes(body, 8);
        Ok(Parsed(Float(bits.value), bits.rest))
    else if kind == 4 then
      var text :- ReadSized(strict, body, low);
      if Utf8(text.value) then Ok(Parsed(Str(text.value), text.rest)) else Err(InvalidUtf8)
    else if kind == 5 then
      var bytes :- ReadSized(strict, body, low);
      Ok(Parsed(Raw(bytes.value), bytes.rest))
    else if kind == 8 then Err(UnexpectedEnd)
    else Err(UnknownType(header))
  }

  function ReadValue(strict: bool, depth: nat, s: Slice): (r: Outcome<Value>)
    ensures r.Ok? ==> |r.value.rest| < |s|
    decreases |s|, 0
  {
    if s == [] then Err(Truncated)
    else if s[0] == 0x60 then
      if depth >= MAX_NESTING then Err(TooDeeplyNested)
      else
        var items :- ReadItems(strict, depth + 1, s[1..]);
        Ok(Parsed(List(items.value), items.rest))
    else if s[0] == 0x70 then
      if depth >= MAX_NESTING then Err(TooDeeplyNested)
      else
        var entries :- ReadEntries(strict, depth + 1, s[1..], None);
        Ok(Parsed(Dict(entries.value), entries.rest))
    else ReadScalar(strict, s[0], s[1..])
  }

  predicate AtEnd(s: Slice) {
    s != [] && s[0] == END
  }

  function ReadItems(strict: bool, depth: nat, s: Slice): (r: Outcome<seq<Value>>)
    ensures r.Ok? ==> |r.value.rest| < |s|
    decreases |s|, 1
  {
    if AtEnd(s) then Ok(Parsed([], s[1..]))
    else
      var first :- ReadValue(strict, depth, s);
      var others :- ReadItems(strict, depth, first.rest);
      Ok(Parsed([first.value] + others.value, others.rest))
  }

  /** Why a strict reader refuses a key after the one before it, if it does. */
  function KeyFault(strict: bool, previous: Option<Text>, key: Text): Option<Error> {
    if !strict || previous.None? || Before(previous.value, key) then Option.None
    else if key == previous.value then Some(DuplicateKey)
    else Some(KeysOutOfOrder)
  }

  function ReadEntries(strict: bool, depth: nat, s: Slice, previous: Option<Text>): (r: Outcome<seq<Entry>>)
    ensures r.Ok? ==> |r.value.rest| < |s|
    decreases |s|, 3
  {
    if AtEnd(s) then Ok(Parsed([], s[1..]))
    else
      var first :- ReadEntry(strict, depth, s, previous);
      var others :- ReadEntries(strict, depth, first.rest, Some(first.value.key));
      Ok(Parsed([first.value] + others.value, others.rest))
  }

  function ReadEntry(strict: bool, depth: nat, s: Slice, previous: Option<Text>): (r: Outcome<Entry>)
    ensures r.Ok? ==> |r.value.rest| < |s|
    decreases |s|, 2
  {
    var key :- ReadKey(strict, depth, s, previous);
    var value :- ReadValue(strict, depth, key.rest);
    Ok(Parsed(Entry(key.value, value.value), value.rest))
  }

  function ReadKey(strict: bool, depth: nat, s: Slice, previous: Option<Text>): (r: Outcome<Text>)
    ensures r.Ok? ==> |r.value.rest| < |s|
    decreases |s|, 1
  {
    var key :- ReadValue(strict, depth, s);
    if !key.value.Str? then Err(KeyNotAString)
    else
      var fault := KeyFault(strict, previous, key.value.text);
      if fault.Some? then Err(fault.value) else Ok(Parsed(key.value.text, key.rest))
  }

  /** What was read, unless anything is left after it. */
  function Whole(outcome: Outcome<Value>): Result<Value, Error> {
    var p :- outcome;
    if p.rest == [] then Ok(p.value) else Err(TrailingBytes(|p.rest|))
  }

  /** Exactly one object, and nothing after it. */
  function ReadOne(input: Slice, strict: bool): Result<Value, Error> {
    Whole(ReadValue(strict, 0, input))
  }

  function FromBytes(input: Slice): Result<Value, Error> {
    ReadOne(input, false)
  }

  function FromBytesCanonical(input: Slice): Result<Value, Error> {
    ReadOne(input, true)
  }
}
