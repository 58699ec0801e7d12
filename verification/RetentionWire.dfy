/** A retention policy as canonical BDF. */
module RetentionWire {
  import opened Words
  import opened Bdf
  import BdfReader
  import BdfCursor
  import BdfWriter
  import BdfTheorems
  import BdfOrder
  import opened BdfFields
  import opened Retention

  datatype WireError = Malformed

  // The texts used, as UTF-8.
  const KEY_KIND: Text := [0x6b]
  const KEY_NUMBER: Text := [0x6e]
  const ALL: Text := [0x61, 0x6c, 0x6c]
  const COUNT: Text := [0x63, 0x6f, 0x75, 0x6e, 0x74]
  const AGE: Text := [0x61, 0x67, 0x65]

  function Fields(policy: Retention): seq<Entry> {
    match policy
    case All => [Entry(KEY_KIND, Str(ALL))]
    case Count(n) => [Entry(KEY_KIND, Str(COUNT)), Entry(KEY_NUMBER, Int(n))]
    case Age(days) => [Entry(KEY_KIND, Str(AGE)), Entry(KEY_NUMBER, Int(days))]
  }

  function Encoded(policy: Retention): seq<byte> {
    Encoding(Dict(Fields(policy)))
  }

  method Encode(policy: Retention) returns (out: seq<byte>)
    ensures out == Encoded(policy)
  {
    out := BdfWriter.ToBytes(Dict(Fields(policy)));
  }

  /** The three kinds of policy, by what they are called. */
  datatype Kind = AllKind | CountKind | AgeKind

  function KindFrom(text: Text): Option<Kind> {
    if text == ALL then Some(AllKind)
    else if text == COUNT then Some(CountKind)
    else if text == AGE then Some(AgeKind)
    else Option.None
  }

  function KindText(kind: Kind): Text {
    match kind
    case AllKind => ALL
    case CountKind => COUNT
    case AgeKind => AGE
  }

  /** The kind under its key. */
  function KindField(kind: Option<Value>): Option<Kind> {
    if kind.Some? && kind.value.Str? then KindFrom(kind.value.text) else Option.None
  }

  /** The number under its key, if it is a `u32`. */
  function NumberField(number: Option<Value>): Option<u32> {
    if number.Some? && number.value.Int? && 0 <= number.value.number <= U32_MAX then Some(number.value.number)
    else Option.None
  }

  /** The policy of a kind and a number, out of so many fields in all. */
  function PolicyOf(kind: Option<Kind>, number: Option<u32>, count: nat): Result<Retention, WireError> {
    if kind.None? then Err(Malformed)
    else if count != (if kind.value.AllKind? then 1 else 2) then Err(Malformed)
    else if kind.value.AllKind? then Ok(All)
    else if number.None? then Err(Malformed)
    else if kind.value.CountKind? then Ok(Count(number.value))
    else Ok(Age(number.value))
  }

  function FromFields(fields: seq<Entry>): Result<Retention, WireError> {
    PolicyOf(KindField(Find(fields, KEY_KIND)), NumberField(Find(fields, KEY_NUMBER)), |fields|)
  }

  function Decoded(bytes: Slice): Result<Retention, WireError> {
    var value := BdfReader.FromBytesCanonical(bytes);
    if value.Ok? && value.value.Dict? then FromFields(value.value.entries) else Err(Malformed)
  }

  method Decode(bytes: Slice) returns (r: Result<Retention, WireError>)
    ensures r == Decoded(bytes)
  {
    var value := BdfCursor.DecodeOne(bytes, true);
    if value.Err? || !value.value.Dict? {
      return Err(Malformed);
    }
    r := FromFields(value.value.entries);
  }

  lemma TextsDiffer()
    ensures ALL != COUNT && ALL != AGE && COUNT != AGE && KEY_KIND != KEY_NUMBER
  {
    assert |COUNT| == 5 && |ALL| == 3 && |AGE| == 3;
    assert ALL[1] == 0x6c && AGE[1] == 0x67;
    assert KEY_KIND[0] == 0x6b && KEY_NUMBER[0] == 0x6e;
  }

  function KindOf(policy: Retention): Kind {
    if policy.All? then AllKind else if policy.Count? then CountKind else AgeKind
  }

  function NumberOf(policy: Retention): u32
    requires !policy.All?
  {
    if policy.Count? then policy.n else policy.days
  }

  lemma KindFromInverts(text: Text, kind: Kind)
    ensures KindFrom(text) == Some(kind) <==> KindText(kind) == text
  {
    TextsDiffer();
  }

  lemma PolicyOfWhen(kind: Option<Kind>, number: Option<u32>, count: nat, policy: Retention)
    ensures PolicyOf(kind, number, count) == Ok(policy) <==>
              && kind == Some(KindOf(policy))
              && count == (if policy.All? then 1 else 2)
              && (!policy.All? ==> number == Some(NumberOf(policy)))
  {
  }

  /** Which values under the two keys make a policy. */
  lemma FromFieldsWhen(fields: seq<Entry>, policy: Retention)
    ensures FromFields(fields) == Ok(policy) <==>
              && Find(fields, KEY_KIND) == Some(Str(KindText(KindOf(policy))))
              && |fields| == (if policy.All? then 1 else 2)
              && (!policy.All? ==> Find(fields, KEY_NUMBER) == Some(Int(NumberOf(policy))))
  {
    var kind, number := Find(fields, KEY_KIND), Find(fields, KEY_NUMBER);
    PolicyOfWhen(KindField(kind), NumberField(number), |fields|, policy);
    if kind.Some? && kind.value.Str? {
      KindFromInverts(kind.value.text, KindOf(policy));
    }
  }

  lemma FieldsOf(policy: Retention)
    ensures Fields(policy)
         == [Entry(KEY_KIND, Str(KindText(KindOf(policy))))]
            + (if policy.All? then [] else [Entry(KEY_NUMBER, Int(NumberOf(policy)))])
  {
  }

  lemma FieldsAreCanonical(policy: Retention)
    ensures AdjacentSorted(Fields(policy))
    ensures IsCanonical(Dict(Fields(policy))) && Nesting(Dict(Fields(policy))) == 1
  {
    FieldsOf(policy);
    assert Before(KEY_KIND, KEY_NUMBER);
    FlatFieldsAreCanonical(Fields(policy));
  }

  lemma FieldsReadBack(policy: Retention)
    ensures FromFields(Fields(policy)) == Ok(policy)
  {
    FieldsOf(policy);
    FieldsAreCanonical(policy);
    var fields := Fields(policy);
    FindsWhatIsThere(fields, KEY_KIND, Str(KindText(KindOf(policy))));
    assert fields[0] in fields;
    if !policy.All? {
      assert fields[1] in fields;
      FindsWhatIsThere(fields, KEY_NUMBER, Int(NumberOf(policy)));
    }
    FromFieldsWhen(fields, policy);
  }

  /** Canonical fields that read as a policy are the policy's own. */
  lemma FieldsAreThePolicys(fields: seq<Entry>)
    requires AdjacentSorted(fields) && FromFields(fields).Ok?
    ensures fields == Fields(FromFields(fields).value)
  {
    var policy := FromFields(fields).value;
    FromFieldsWhen(fields, policy);
    FieldsOf(policy);
    FindsSomeField(fields, KEY_KIND);
    var i :| 0 <= i < |fields| && fields[i] == Entry(KEY_KIND, Str(KindText(KindOf(policy))));
    if !policy.All? {
      FindsSomeField(fields, KEY_NUMBER);
      var j :| 0 <= j < |fields| && fields[j] == Entry(KEY_NUMBER, Int(NumberOf(policy)));
      assert Before(KEY_KIND, KEY_NUMBER);
      KeysInOrder(fields, i, j);
    }
  }

  /** Bytes read as a policy exactly when the policy is written as those bytes. */
  lemma PolicyWireInverse(bytes: Slice, policy: Retention)
    ensures Decoded(bytes) == Ok(policy) <==> Encoded(policy) == bytes
  {
    FieldsAreCanonical(policy);
    FieldsReadBack(policy);
    BdfTheorems.StrictIsTheCanonicalImage(bytes, Dict(Fields(policy)));
    if Decoded(bytes) == Ok(policy) {
      var value := BdfReader.FromBytesCanonical(bytes).value;
      BdfTheorems.StrictIsTheCanonicalImage(bytes, value);
      assert AdjacentSorted(value.entries);
      FieldsAreThePolicys(value.entries);
    }
  }

  lemma AsciiIs(text: string, bytes: seq<byte>)
    requires |text| == |bytes| && forall i :: 0 <= i < |text| ==> text[i] as int == bytes[i]
    ensures Ascii(text) == bytes
  {
  }

  /** What the kinds of policy are called. */
  function Name(policy: Retention): string {
    match policy
    case All => "all"
    case Count(_) => "count"
    case Age(_) => "age"
  }

  lemma AllIsNamed()
    ensures ALL == Ascii("all")
  {
    AsciiIs("all", ALL);
  }

  lemma CountIsNamed()
    ensures COUNT == Ascii("count")
  {
    AsciiIs("count", COUNT);
  }

  lemma AgeIsNamed()
    ensures AGE == Ascii("age")
  {
    AsciiIs("age", AGE);
  }

  lemma KindIsNamed(policy: Retention)
    ensures |Name(policy)| < 0x80 && KindText(KindOf(policy)) == Ascii(Name(policy))
  {
    if policy.All? {
      AllIsNamed();
    } else if policy.Count? {
      CountIsNamed();
    } else {
      AgeIsNamed();
    }
  }

  /** A short text, written: its header, its length, and its letters. */
  function TextBytes(text: string): seq<byte>
    requires |text| < 0x80
  {
    [0x41, |text|] + Ascii(text)
  }

  lemma TextIs(text: Text, ascii: string)
    requires |ascii| < 0x80 && text == Ascii(ascii)
    ensures Encoding(Str(text)) == TextBytes(ascii)
  {
    BdfOrder.ShortsWritten(text);
  }

  lemma KeysAreNamed()
    ensures Encoding(Str(KEY_KIND)) == TextBytes("k") && Encoding(Str(KEY_NUMBER)) == TextBytes("n")
  {
    AsciiIs("k", KEY_KIND);
    AsciiIs("n", KEY_NUMBER);
    TextIs(KEY_KIND, "k");
    TextIs(KEY_NUMBER, "n");
  }

  lemma TwoFields(a: Entry, b: Entry)
    ensures Encoding(Dict([a, b]))
         == [0x70] + (Encoding(Str(a.key)) + Encoding(a.value) + (Encoding(Str(b.key)) + Encoding(b.value))) + [0x80]
  {
    assert [a, b][1..] == [b] && [b][1..] == [];
    assert EncodingEntries([b]) == Encoding(Str(b.key)) + Encoding(b.value) + EncodingEntries([]);
  }

  /** What a policy is on the wire: its kind under "k", and its number, if it has one, under "n". */
  lemma PolicyBytes(policy: Retention)
    ensures |Name(policy)| < 0x80
    ensures Encoded(policy)
         == if policy.All? then [0x70] + (TextBytes("k") + TextBytes(Name(policy))) + [0x80]
            else [0x70] + (TextBytes("k") + TextBytes(Name(policy))
                           + (TextBytes("n") + Encoding(Int(NumberOf(policy))))) + [0x80]
  {
    KindIsNamed(policy);
    KeysAreNamed();
    var text := KindText(KindOf(policy));
    TextIs(text, Name(policy));
    FieldsWritten(policy, text);
  }

  lemma FieldsWritten(policy: Retention, text: Text)
    requires text == KindText(KindOf(policy))
    ensures Encoded(policy)
         == if policy.All? then [0x70] + (Encoding(Str(KEY_KIND)) + Encoding(Str(text))) + [0x80]
            else [0x70] + (Encoding(Str(KEY_KIND)) + Encoding(Str(text))
                           + (Encoding(Str(KEY_NUMBER)) + Encoding(Int(NumberOf(policy))))) + [0x80]
  {
    FieldsOf(policy);
    if policy.All? {
      BdfOrder.ContainersWritten(KEY_KIND, Str(text), Null);
    } else {
      TwoFields(Entry(KEY_KIND, Str(text)), Entry(KEY_NUMBER, Int(NumberOf(policy))));
    }
  }
}
