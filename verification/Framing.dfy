/** The record framing shared by the layers: version, type, length, payload. */
module Framing {
  import opened Words
  import opened BigEndian

  const HEADER_LEN: nat := 4
  const MAX_PAYLOAD_LEN: nat := 48 * 1024

  datatype Record = Record(version: byte, recordType: byte, payload: seq<byte>)

  datatype Error =
    | PayloadTooLong(given: nat)
    | Truncated(expected: nat, given: nat)
    | UnknownVersion(speaks: byte, announced: byte)

  /** What one record looks like on the wire. */
  function Framed(r: Record): seq<byte>
    requires |r.payload| <= MAX_PAYLOAD_LEN
  {
    [r.version, r.recordType] + Digits(|r.payload|, 2) + r.payload
  }

  function Written(version: byte, recordType: byte, payload: seq<byte>): Result<seq<byte>, Error> {
    if |payload| > MAX_PAYLOAD_LEN then Err(PayloadTooLong(|payload|))
    else Ok(Framed(Record(version, recordType, payload)))
  }

  method Encode(version: byte, recordType: byte, payload: seq<byte>) returns (r: Result<seq<byte>, Error>)
    ensures r == Written(version, recordType, payload)
  {
    if |payload| > 0xffff || |payload| > MAX_PAYLOAD_LEN {
      return Err(PayloadTooLong(|payload|));
    }
    var out: seq<byte> := [];
    out := out + [version];
    out := out + [recordType];
    out := out + Digits(|payload|, 2);
    out := out + payload;
    assert out == [version, recordType] + Digits(|payload|, 2) + payload;
    r := Ok(out);
  }

  /** What the next step of a reader yields for the bytes still ahead of it. */
  function NextOf(version: byte, s: seq<byte>): (r: Result<Record, Error>)
    requires s != []
    ensures r.Ok? ==> |r.value.payload| + HEADER_LEN <= |s|
  {
    if |s| < HEADER_LEN then Err(Truncated(HEADER_LEN, |s|))
    else if s[0] != version then Err(UnknownVersion(version, s[0]))
    else
      var length := s[2] as int * 256 + s[3];
      if length > MAX_PAYLOAD_LEN then Err(PayloadTooLong(length))
      else if |s| - HEADER_LEN < length then Err(Truncated(length, |s| - HEADER_LEN))
      else Ok(Record(version, s[1], s[HEADER_LEN..HEADER_LEN + length]))
  }

  /** What a reader has still to say of the bytes ahead: its records, and at most one error, at the end. */
  datatype Reading = Reading(records: seq<Record>, fault: Option<Error>, left: seq<byte>)

  function ReadAll(version: byte, s: seq<byte>): Reading
    decreases |s|
  {
    if s == [] then Reading([], Option.None, [])
    else
      match NextOf(version, s)
      case Err(error) => Reading([], Some(error), s)
      case Ok(r) =>
        var rest := ReadAll(version, s[HEADER_LEN + |r.payload|..]);
        Reading([r] + rest.records, rest.fault, rest.left)
  }

  class Reader {
    const input: seq<byte>
    const version: byte
    var pos: nat
    var stopped: bool

    ghost predicate Valid()
      reads this
    {
      pos <= |input|
    }

    /** The bytes still to be read; a stopped reader reads no more. */
    ghost function Ahead(): seq<byte>
      reads this
      requires Valid()
    {
      if stopped then [] else input[pos..]
    }

    constructor (input: seq<byte>, version: byte)
      ensures Valid() && this.version == version && Ahead() == input
    {
      this.input, this.version, pos, stopped := input, version, 0, false;
    }

    method Next() returns (item: Option<Result<Record, Error>>)
      requires Valid()
      modifies this
      ensures Valid()
      ensures old(Ahead()) == [] ==> item == None && Ahead() == []
      ensures old(Ahead()) != [] ==>
                var r := NextOf(version, old(Ahead()));
                item == Some(r) && Ahead() == if r.Ok? then old(Ahead())[HEADER_LEN + |r.value.payload|..] else []
    {
      if stopped {
        return None;
      }
      var remaining := |input| - pos;
      if remaining == 0 {
        return None;
      }
      stopped := true;
      ghost var ahead := input[pos..];
      if remaining < HEADER_LEN {
        return Some(Err(Truncated(HEADER_LEN, remaining)));
      }
      var given, recordType, high, low := input[pos], input[pos + 1], input[pos + 2], input[pos + 3];
      assert ahead[0] == given && ahead[1] == recordType && ahead[2] == high && ahead[3] == low;
      if given != version {
        return Some(Err(UnknownVersion(version, given)));
      }
      var length: nat := high as int * 256 + low;
      if length > MAX_PAYLOAD_LEN {
        return Some(Err(PayloadTooLong(length)));
      }
      var available := remaining - HEADER_LEN;
      if available < length {
        return Some(Err(Truncated(length, available)));
      }
      var start := pos + HEADER_LEN;
      var end := start + length;
      assert ahead[HEADER_LEN..HEADER_LEN + length] == input[start..end];
      assert ahead[HEADER_LEN + length..] == input[end..];
      item := Some(Ok(Record(version, recordType, input[start..end])));
      pos := end;
      stopped := false;
    }
  }

  // Reading and writing.

  predicate Writable(version: byte, records: seq<Record>) {
    forall i :: 0 <= i < |records| ==> records[i].version == version && |records[i].payload| <= MAX_PAYLOAD_LEN
  }

  function FramedAll(records: seq<Record>): seq<byte>
    requires forall i :: 0 <= i < |records| ==> |records[i].payload| <= MAX_PAYLOAD_LEN
  {
    if records == [] then [] else Framed(records[0]) + FramedAll(records[1..])
  }

  lemma LengthBytes(n: nat)
    requires n <= MAX_PAYLOAD_LEN
    ensures Digits(n, 2) == [n / 256, n % 256]
  {
    assert Digits(n / 256, 1) == [n / 256];
  }

  /** A record in front of anything is the next one read. */
  lemma FramedIsNext(r: Record, rest: seq<byte>)
    requires |r.payload| <= MAX_PAYLOAD_LEN
    ensures Framed(r) != []
    ensures NextOf(r.version, Framed(r) + rest) == Ok(r)
    ensures (Framed(r) + rest)[HEADER_LEN + |r.payload|..] == rest
  {
    LengthBytes(|r.payload|);
    var s := Framed(r) + rest;
    assert Framed(r) == [r.version, r.recordType, |r.payload| / 256, |r.payload| % 256] + r.payload;
    assert s[2] as int * 256 + s[3] == |r.payload|;
    assert s[HEADER_LEN..HEADER_LEN + |r.payload|] == r.payload;
  }

  /** A record read is what lay at the front of the input. */
  lemma NextIsFramed(version: byte, s: seq<byte>)
    requires s != [] && NextOf(version, s).Ok?
    ensures var r := NextOf(version, s).value;
            && r.version == version && |r.payload| <= MAX_PAYLOAD_LEN
            && s == Framed(r) + s[HEADER_LEN + |r.payload|..]
  {
    var r := NextOf(version, s).value;
    LengthBytes(|r.payload|);
    assert Digits(|r.payload|, 2) == [s[2], s[3]];
    assert s[..4] == [s[0], s[1], s[2], s[3]];
    assert s == s[..4] + s[4..4 + |r.payload|] + s[4 + |r.payload|..];
  }

  /** Records written one after another read back as the same records, without a fault. */
  lemma {:induction false} ReadsBackAll(version: byte, records: seq<Record>)
    requires Writable(version, records)
    ensures ReadAll(version, FramedAll(records)) == Reading(records, None, [])
  {
    if records != [] {
      ReadsBackAll(version, records[1..]);
      FramedIsNext(records[0], FramedAll(records[1..]));
      assert records == [records[0]] + records[1..];
    }
  }

  /**
   * Of any input whatever, the records read are written back as a prefix of
   * it; what is left behind them is nothing exactly when there was no fault.
   */
  lemma {:induction false} ReadingIsAPrefix(version: byte, s: seq<byte>)
    ensures var reading := ReadAll(version, s);
            && Writable(version, reading.records)
            && s == FramedAll(reading.records) + reading.left
            && (reading.fault == None <==> reading.left == [])
            && (reading.fault == None <==> FramedAll(reading.records) == s)
    decreases |s|
  {
    if s != [] && NextOf(version, s).Ok? {
      var r := NextOf(version, s).value;
      var rest := s[HEADER_LEN + |r.payload|..];
      NextIsFramed(version, s);
      ReadingIsAPrefix(version, rest);
      var others := ReadAll(version, rest).records;
      assert ([r] + others)[0] == r && ([r] + others)[1..] == others;
      assert Framed(r) + (FramedAll(others) + ReadAll(version, rest).left)
          == (Framed(r) + FramedAll(others)) + ReadAll(version, rest).left;
    }
  }

  // The layout, and what a cut record is.

  /** Version, type, two bytes of length with the higher first, and the payload. */
  lemma LayoutIs(r: Record)
    requires |r.payload| <= MAX_PAYLOAD_LEN
    ensures Framed(r) == [r.version, r.recordType, |r.payload| / 256, |r.payload| % 256] + r.payload
    ensures |Framed(r)| == 4 + |r.payload|
  {
    LengthBytes(|r.payload|);
  }

  /** A payload is refused exactly when it is over 48 KiB. */
  lemma WrittenWhen(version: byte, recordType: byte, payload: seq<byte>)
    ensures Written(version, recordType, payload)
         == if |payload| <= 49_152 then Ok(Framed(Record(version, recordType, payload)))
            else Err(PayloadTooLong(|payload|))
  {
  }

  /** A record cut short anywhere is reported as truncated, with what was wanted and what was there. */
  lemma CutRecordIsTruncated(r: Record, cut: nat)
    requires |r.payload| <= MAX_PAYLOAD_LEN && 0 < cut < |Framed(r)|
    ensures NextOf(r.version, Framed(r)[..cut])
         == if cut < 4 then Err(Truncated(4, cut)) else Err(Truncated(|r.payload|, cut - 4))
  {
    LayoutIs(r);
    var s := Framed(r)[..cut];
    if cut >= 4 {
      assert s[0] == r.version && s[2] == |r.payload| / 256 && s[3] == |r.payload| % 256;
    }
  }

  /** A reader of one version takes no record of another, and none that announces more than 48 KiB. */
  lemma ForeignIsRefused(version: byte, s: seq<byte>)
    requires |s| >= 4
    ensures s[0] != version ==> NextOf(version, s) == Err(UnknownVersion(version, s[0]))
    ensures s[0] == version && s[2] as int * 256 + s[3] > 49_152 ==>
              NextOf(version, s) == Err(PayloadTooLong(s[2] as int * 256 + s[3]))
  {
  }
}
