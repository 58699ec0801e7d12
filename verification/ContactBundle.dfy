/** Contact bundles: the keys two people exchange, and what a commitment to them covers. */
module ContactBundle {
  import opened Words
  import opened Bdf
  import BdfReader
  import BdfCursor
  import BdfWriter
  import BdfTheorems
  import opened BdfFields

  const CONTACT_VERSION: byte := 1
  const IDENTITY_VERSION: byte := 1
  const ROOT_ED25519_LEN: nat := 32
  const ROOT_MLDSA_LEN: nat := 1952
  const CONTACT_KEY_LEN: nat := 32
  const BUNDLE_LABEL := Ascii("org.onestein.contact/BUNDLE")

  // The keys of the dictionary: "ed", "pq", "v" and "x".
  const ED: Text := [0x65, 0x64]
  const PQ: Text := [0x70, 0x71]
  const V: Text := [0x76]
  const X: Text := [0x78]

  /** A hash of several parts. Nothing is known of it. */
  type Hash = seq<seq<byte>> -> seq<byte>

  datatype Error = Malformed | WrongKeyLength(expected: nat, given: nat)

  datatype Bundle = Bundle(rootEd25519: Bytes32, rootMldsa: Slice, contactKey: Bytes32)

  function Fields(bundle: Bundle): seq<Entry> {
    [ Entry(ED, Raw(bundle.rootEd25519)),
      Entry(PQ, Raw(bundle.rootMldsa)),
      Entry(V, Int(IDENTITY_VERSION)),
      Entry(X, Raw(bundle.contactKey)) ]
  }

  function Encoded(bundle: Bundle): Result<seq<byte>, Error> {
    if |bundle.rootMldsa| != ROOT_MLDSA_LEN then Err(WrongKeyLength(ROOT_MLDSA_LEN, |bundle.rootMldsa|))
    else Ok(Encoding(Dict(Fields(bundle))))
  }

  method Encode(bundle: Bundle) returns (r: Result<seq<byte>, Error>)
    ensures r == Encoded(bundle)
  {
    if |bundle.rootMldsa| != ROOT_MLDSA_LEN {
      return Err(WrongKeyLength(ROOT_MLDSA_LEN, |bundle.rootMldsa|));
    }
    var out := BdfWriter.ToBytes(Dict(Fields(bundle)));
    r := Ok(out);
  }

  /** The bytes under a key. */
  function RawField(fields: seq<Entry>, key: Text): Result<Slice, Error> {
    var found := Find(fields, key);
    if found.Some? && found.value.Raw? then Ok(found.value.bytes) else Err(Malformed)
  }

  function SizedField(fields: seq<Entry>, key: Text, expected: nat): (r: Result<Slice, Error>)
    ensures r.Ok? ==> |r.value| == expected
  {
    var bytes :- RawField(fields, key);
    if |bytes| != expected then Err(WrongKeyLength(expected, |bytes|)) else Ok(bytes)
  }

  function FromFields(fields: seq<Entry>): Result<Bundle, Error> {
    if Find(fields, V) != Some(Int(IDENTITY_VERSION)) then Err(Malformed)
    else
      var rootMldsa :- SizedField(fields, PQ, ROOT_MLDSA_LEN);
      var rootEd25519 :- SizedField(fields, ED, ROOT_ED25519_LEN);
      var contactKey :- SizedField(fields, X, CONTACT_KEY_LEN);
      Ok(Bundle(rootEd25519, rootMldsa, contactKey))
  }

  function Decoded(bytes: Slice): Result<Bundle, Error> {
    var value := BdfReader.FromBytesCanonical(bytes);
    if value.Ok? && value.value.Dict? then FromFields(value.value.entries) else Err(Malformed)
  }

  method Decode(bytes: Slice) returns (r: Result<Bundle, Error>)
    ensures r == Decoded(bytes)
  {
    var value := BdfCursor.DecodeOne(bytes, true);
    if value.Err? || !value.value.Dict? {
      return Err(Malformed);
    }
    r := FromFields(value.value.entries);
  }

  // What reading a bundle means.

  lemma KeysAreOrdered()
    ensures Before(ED, PQ) && Before(PQ, V) && Before(V, X)
  {
  }

  lemma FieldsAreCanonical(bundle: Bundle)
    ensures IsCanonical(Dict(Fields(bundle))) && Nesting(Dict(Fields(bundle))) == 1
  {
    KeysAreOrdered();
    FlatFieldsAreCanonical(Fields(bundle));
  }

  /** The four fields are there, among whatever else is. */
  predicate Carries(fields: seq<Entry>, bundle: Bundle) {
    forall i :: 0 <= i < 4 ==> Fields(bundle)[i] in fields
  }

  /** Canonical fields read as a bundle exactly when they carry its four. */
  lemma FieldsReadAs(fields: seq<Entry>, bundle: Bundle)
    requires AdjacentSorted(fields)
    ensures FromFields(fields) == Ok(bundle) <==> |bundle.rootMldsa| == ROOT_MLDSA_LEN && Carries(fields, bundle)
  {
    var own := Fields(bundle);
    FindsWhatIsThere(fields, ED, own[0].value);
    FindsWhatIsThere(fields, PQ, own[1].value);
    FindsWhatIsThere(fields, V, own[2].value);
    FindsWhatIsThere(fields, X, own[3].value);
    assert Carries(fields, bundle) <==> own[0] in fields && own[1] in fields && own[2] in fields && own[3] in fields;
  }

  /** Which length is refused, and in which order they are looked at. */
  lemma WrongLengthsAreNamed(fields: seq<Entry>, ed: Slice, pq: Slice, x: Slice)
    requires Find(fields, V) == Some(Int(1))
    requires Find(fields, ED) == Some(Raw(ed)) && Find(fields, PQ) == Some(Raw(pq)) && Find(fields, X) == Some(Raw(x))
    ensures FromFields(fields)
         == if |pq| != 1952 then Err(WrongKeyLength(1952, |pq|))
            else if |ed| != 32 then Err(WrongKeyLength(32, |ed|))
            else if |x| != 32 then Err(WrongKeyLength(32, |x|))
            else Ok(Bundle(ed, pq, x))
  {
  }

  /** Four canonical fields that carry a bundle's are the bundle's. */
  lemma FourFieldsAreItsOwn(fields: seq<Entry>, bundle: Bundle)
    requires AdjacentSorted(fields) && Carries(fields, bundle) && |fields| == 4
    ensures fields == Fields(bundle)
  {
    KeysAreOrdered();
    var own := Fields(bundle);
    var a :| 0 <= a < 4 && fields[a] == own[0];
    var b :| 0 <= b < 4 && fields[b] == own[1];
    var c :| 0 <= c < 4 && fields[c] == own[2];
    var d :| 0 <= d < 4 && fields[d] == own[3];
    KeysInOrder(fields, a, b);
    KeysInOrder(fields, b, c);
    KeysInOrder(fields, c, d);
  }

  /** How many fields arrived. */
  function FieldCount(bytes: Slice): nat {
    var value := BdfReader.FromBytesCanonical(bytes);
    if value.Ok? && value.value.Dict? then |value.value.entries| else 0
  }

  /** A written bundle reads back, and of the byte strings that read as a bundle only its own has four fields. */
  lemma ReadsBack(bytes: Slice, bundle: Bundle)
    ensures Encoded(bundle) == Ok(bytes) <==> Decoded(bytes) == Ok(bundle) && FieldCount(bytes) == 4
  {
    var own := Fields(bundle);
    FieldsAreCanonical(bundle);
    BdfTheorems.StrictIsTheCanonicalImage(bytes, Dict(own));
    FieldsReadAs(own, bundle);
    if Decoded(bytes) == Ok(bundle) && FieldCount(bytes) == 4 {
      var value := BdfReader.FromBytesCanonical(bytes).value;
      BdfTheorems.StrictIsTheCanonicalImage(bytes, value);
      FieldsReadAs(value.entries, bundle);
      FourFieldsAreItsOwn(value.entries, bundle);
    }
  }

  // What a commitment covers.

  function HashOf(hash: Hash, bytes: seq<byte>): seq<byte> {
    hash([BUNDLE_LABEL, [CONTACT_VERSION], bytes])
  }

  /** The commitment is made over the bundle written again, not over what arrived. */
  function Commitment(hash: Hash, bundle: Bundle): Result<seq<byte>, Error> {
    var encoded :- Encoded(bundle);
    Ok(HashOf(hash, encoded))
  }

  /** A hash that gives back its last part. */
  function LastPart(parts: seq<seq<byte>>): seq<byte> {
    if parts == [] then [] else parts[|parts| - 1]
  }

  /**
   * The commitment to a bundle that was read is the hash of the bytes that
   * arrived exactly when they held four fields: with any more the two come
   * apart, as a hash that tells different bytes apart shows.
   */
  lemma CommitsToWhatArrived(hash: Hash, bytes: Slice, bundle: Bundle)
    requires Decoded(bytes) == Ok(bundle)
    ensures FieldCount(bytes) == 4 ==>
              Commitment(hash, bundle) == Ok(hash([Ascii("org.onestein.contact/BUNDLE"), [1], bytes]))
    ensures FieldCount(bytes) == 4 <==> Commitment(LastPart, bundle) == Ok(HashOf(LastPart, bytes))
  {
    ReadsBack(bytes, bundle);
    BdfTheorems.StrictIsTheCanonicalImage(bytes, BdfReader.FromBytesCanonical(bytes).value);
    FieldsReadAs(BdfReader.FromBytesCanonical(bytes).value.entries, bundle);
  }

  // A fifth field is read over.

  const Z: Text := [0x7a]

  function Extended(bundle: Bundle): seq<Entry> {
    Fields(bundle) + [Entry(Z, Null)]
  }

  lemma ExtendedIsCanonical(bundle: Bundle)
    ensures IsCanonical(Dict(Extended(bundle))) && Nesting(Dict(Extended(bundle))) == 1
  {
    KeysAreOrdered();
    assert Before(X, Z);
    FlatFieldsAreCanonical(Extended(bundle));
  }

  predicate Short(field: Entry) {
    |field.key| + |Encoding(field.value)| <= 2000
  }

  lemma {:induction false} ShortFields(fields: seq<Entry>)
    requires forall i :: 0 <= i < |fields| ==> Short(fields[i])
    ensures |EncodingEntries(fields)| <= 2009 * |fields|
  {
    if fields != [] {
      assert Short(fields[0]);
      ShortFields(fields[1..]);
    }
  }

  lemma ShortRaw(key: Text, bytes: Slice)
    requires |key| <= 2 && |bytes| <= ROOT_MLDSA_LEN
    ensures Short(Entry(key, Raw(bytes)))
  {
  }

  lemma ShortOthers()
    ensures Short(Entry(V, Int(IDENTITY_VERSION))) && Short(Entry(Z, Null))
  {
  }

  lemma EachIsShort(bundle: Bundle, i: nat)
    requires |bundle.rootMldsa| == ROOT_MLDSA_LEN && i < |Extended(bundle)|
    ensures Short(Extended(bundle)[i])
  {
    if i == 0 {
      ShortRaw(ED, bundle.rootEd25519);
    } else if i == 1 {
      ShortRaw(PQ, bundle.rootMldsa);
    } else if i == 3 {
      ShortRaw(X, bundle.contactKey);
    } else {
      ShortOthers();
    }
  }

  lemma ExtendedIsShort(bundle: Bundle)
    requires |bundle.rootMldsa| == ROOT_MLDSA_LEN
    ensures |EncodingEntries(Extended(bundle))| <= 2009 * |Extended(bundle)|
  {
    forall i | 0 <= i < |Extended(bundle)| ensures Short(Extended(bundle)[i]) {
      EachIsShort(bundle, i);
    }
    ShortFields(Extended(bundle));
  }

  lemma ExtraFieldIsReadOver(bundle: Bundle)
    requires |bundle.rootMldsa| == ROOT_MLDSA_LEN
    ensures var bytes := Encoding(Dict(Extended(bundle)));
            |bytes| <= I64_MAX && Decoded(bytes) == Ok(bundle) && Encoded(bundle) != Ok(bytes)
  {
    var fields := Extended(bundle);
    ExtendedIsShort(bundle);
    var bytes: Slice := Encoding(Dict(fields));
    ExtendedIsCanonical(bundle);
    BdfTheorems.StrictIsTheCanonicalImage(bytes, Dict(fields));
    FieldsReadAs(fields, bundle);
    ReadsBack(bytes, bundle);
  }

  /** Which key is under which name, in any bytes that read as a bundle. */
  lemma FieldsAreNamed(bytes: Slice, bundle: Bundle)
    requires Decoded(bytes) == Ok(bundle)
    ensures var value := BdfReader.FromBytesCanonical(bytes);
            && value.Ok? && value.value.Dict?
            && Find(value.value.entries, Ascii("ed")) == Some(Raw(bundle.rootEd25519))
            && Find(value.value.entries, Ascii("pq")) == Some(Raw(bundle.rootMldsa))
            && Find(value.value.entries, Ascii("v")) == Some(Int(1))
            && Find(value.value.entries, Ascii("x")) == Some(Raw(bundle.contactKey))
  {
    NamesAre();
  }

  lemma NamesAre()
    ensures ED == Ascii("ed") && PQ == Ascii("pq") && V == Ascii("v") && X == Ascii("x")
  {
  }
}
