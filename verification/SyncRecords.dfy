/** The records of a sync session on the wire, and the plan's output there. */
module SyncRecords {
  import opened Words
  import opened Framing
  import opened Peer
  import opened SyncMessage
  import opened Plan
  import opened PlanTheorems

  const SYNC_VERSION: byte := 1
  const HASH_LEN: nat := 32

  const TYPE_ACK: byte := 0
  const TYPE_MESSAGE: byte := 1
  const TYPE_OFFER: byte := 2
  const TYPE_REQUEST: byte := 3
  const TYPE_UNAVAILABLE: byte := 4

  /** The most identifiers one record carries. */
  const MAX_IDS: nat := 1536

  datatype WireError = BadRecord | BadMessage(error: SyncMessage.Error)

  function Flat(ids: seq<MessageId>): (payload: seq<byte>)
    ensures |payload| == HASH_LEN * |ids|
  {
    if ids == [] then [] else Flat(ids[..|ids| - 1]) + ids[|ids| - 1]
  }

  function IdentifierPayload(ids: seq<MessageId>): Result<seq<byte>, WireError> {
    if ids == [] then Err(BadRecord) else Ok(Flat(ids))
  }

  method Identifiers(ids: seq<MessageId>) returns (r: Result<seq<byte>, WireError>)
    ensures r == IdentifierPayload(ids)
  {
    if ids == [] {
      return Err(BadRecord);
    }
    var payload: seq<byte> := [];
    for i := 0 to |ids|
      invariant payload == Flat(ids[..i])
    {
      assert ids[..i + 1][..i] == ids[..i];
      payload := payload + ids[i];
    }
    assert ids[..|ids|] == ids;
    r := Ok(payload);
  }

  /** `slice::chunks`, of whole chunks. */
  function Chunks(payload: seq<byte>): (ids: seq<MessageId>)
    requires |payload| % HASH_LEN == 0
    ensures Flat(ids) == payload
    decreases |payload|
  {
    if |payload| == 0 then []
    else
      var n := |payload| - HASH_LEN;
      var ids := Chunks(payload[..n]) + [payload[n..]];
      assert ids[..|ids| - 1] == Chunks(payload[..n]);
      assert payload == payload[..n] + payload[n..];
      ids
  }

  function ParsedIdentifiers(payload: seq<byte>): Result<seq<MessageId>, WireError> {
    if payload == [] || |payload| % HASH_LEN != 0 then Err(BadRecord) else Ok(Chunks(payload))
  }

  lemma {:induction false} FlatInjective(a: seq<MessageId>, b: seq<MessageId>)
    requires Flat(a) == Flat(b)
    ensures a == b
  {
    if a != [] {
      var n := |a| - 1;
      assert |a| == |b|;
      assert Flat(a)[..HASH_LEN * n] == Flat(a[..n]) && Flat(b)[..HASH_LEN * n] == Flat(b[..n]);
      assert Flat(a)[HASH_LEN * n..] == a[n] && Flat(b)[HASH_LEN * n..] == b[n];
      FlatInjective(a[..n], b[..n]);
      assert a == a[..n] + [a[n]] && b == b[..n] + [b[n]];
    }
  }

  /** A payload parses as identifiers exactly when they are written as that payload. */
  lemma IdentifiersInverse(payload: seq<byte>, ids: seq<MessageId>)
    ensures ParsedIdentifiers(payload) == Ok(ids) <==> IdentifierPayload(ids) == Ok(payload)
  {
    if IdentifierPayload(ids) == Ok(payload) {
      assert |payload| == HASH_LEN * |ids|;
      FlatInjective(ids, Chunks(payload));
    }
    if ParsedIdentifiers(payload) == Ok(ids) {
      assert ids != [];
    }
  }

  // One record.

  function TypeOf(record: SyncRecord): byte {
    match record
    case Ack(_) => TYPE_ACK
    case MessageRecord(_) => TYPE_MESSAGE
    case Offer(_) => TYPE_OFFER
    case Request(_) => TYPE_REQUEST
    case Unavailable(_) => TYPE_UNAVAILABLE
    case Unknown(recordType) => recordType
  }

  function PayloadOf(record: SyncRecord): Result<seq<byte>, WireError> {
    if record.Unknown? then Err(BadRecord)
    else if record.MessageRecord? then
      var encoded := EncodedMessage(record.signed);
      if encoded.Ok? then Ok(encoded.value) else Err(BadMessage(encoded.error))
    else IdentifierPayload(record.ids)
  }

  function EncodedRecord(record: SyncRecord): Result<seq<byte>, WireError> {
    var payload :- PayloadOf(record);
    if Written(SYNC_VERSION, TypeOf(record), payload).Ok? then
      Ok(Written(SYNC_VERSION, TypeOf(record), payload).value)
    else Err(BadRecord)
  }

  method EncodeRecord(record: SyncRecord) returns (r: Result<seq<byte>, WireError>)
    ensures r == EncodedRecord(record)
  {
    var payload: seq<byte>;
    if record.Unknown? {
      return Err(BadRecord);
    } else if record.MessageRecord? {
      var encoded := EncodeMessage(record.signed.message, record.signed.signature);
      assert SignedMessage(record.signed.message, record.signed.signature) == record.signed;
      if encoded.Err? {
        return Err(BadMessage(encoded.error));
      }
      payload := encoded.value;
    } else {
      payload :- Identifiers(record.ids);
    }
    var framed := Framing.Encode(SYNC_VERSION, TypeOf(record), payload);
    r := if framed.Ok? then Ok(framed.value) else Err(BadRecord);
  }

  /** Exactly which records can be written. */
  predicate Encodes(record: SyncRecord) {
    if record.Unknown? then false
    else if record.MessageRecord? then |record.signed.message.body| <= MAX_MESSAGE_BODY_LEN
    else 1 <= |record.ids| <= MAX_IDS
  }

  lemma EncodesMeansWritten(record: SyncRecord)
    ensures EncodedRecord(record).Ok? <==> Encodes(record)
  {
  }

  /** A record of the framing, as a record of this layer. */
  function FromFramed(framed: Record): Result<SyncRecord, WireError> {
    if framed.recordType == TYPE_MESSAGE then
      var signed := DecodedMessage(framed.payload);
      if signed.Ok? then Ok(MessageRecord(signed.value)) else Err(BadRecord)
    else if framed.recordType > TYPE_UNAVAILABLE then Ok(Unknown(framed.recordType))
    else
      var ids :- ParsedIdentifiers(framed.payload);
      Ok(OfType(framed.recordType, ids))
  }

  /** The record that identifiers make under a type of its own. */
  function OfType(recordType: byte, ids: seq<MessageId>): SyncRecord {
    if recordType == TYPE_ACK then Ack(ids)
    else if recordType == TYPE_OFFER then Offer(ids)
    else if recordType == TYPE_REQUEST then Request(ids)
    else Unavailable(ids)
  }

  predicate NamesIds(record: SyncRecord) {
    record.Ack? || record.Offer? || record.Request? || record.Unavailable?
  }

  lemma OfTypeInverts(recordType: byte, ids: seq<MessageId>, record: SyncRecord)
    requires NamesIds(record) && recordType <= TYPE_UNAVAILABLE && recordType != TYPE_MESSAGE
    ensures OfType(recordType, ids) == record <==> TypeOf(record) == recordType && record.ids == ids
  {
  }

  /** A known record is read from exactly the payload it is written as. */
  lemma FromFramedInverse(framed: Record, record: SyncRecord)
    requires !record.Unknown?
    ensures FromFramed(framed) == Ok(record)
       <==> PayloadOf(record) == Ok(framed.payload) && TypeOf(record) == framed.recordType
  {
    if record.MessageRecord? {
      MessageWireInverse(framed.payload, record.signed);
    } else {
      IdentifiersInverse(framed.payload, record.ids);
      if framed.recordType <= TYPE_UNAVAILABLE && framed.recordType != TYPE_MESSAGE {
        OfTypeInverts(framed.recordType, Chunked(framed.payload), record);
      }
    }
  }

  /** The identifiers of a payload, if it is some. */
  function Chunked(payload: seq<byte>): seq<MessageId> {
    var ids := ParsedIdentifiers(payload);
    if ids.Ok? then ids.value else []
  }

  // A sequence of records.

  function DecodedRecords(s: seq<byte>): Result<seq<SyncRecord>, WireError>
    decreases |s|
  {
    if s == [] then Ok([])
    else if NextOf(SYNC_VERSION, s).Err? then Err(BadRecord)
    else
      var framed := NextOf(SYNC_VERSION, s).value;
      var first :- FromFramed(framed);
      var others :- DecodedRecords(s[HEADER_LEN + |framed.payload|..]);
      Ok([first] + others)
  }

  function Prepend(done: seq<SyncRecord>, r: Result<seq<SyncRecord>, WireError>): Result<seq<SyncRecord>, WireError> {
    if r.Ok? then Ok(done + r.value) else r
  }

  lemma PrependRecord(done: seq<SyncRecord>, record: SyncRecord, r: Result<seq<SyncRecord>, WireError>)
    ensures Prepend([], r) == r
    ensures Prepend(done, Prepend([record], r)) == Prepend(done + [record], r)
  {
    if r.Ok? {
      assert [] + r.value == r.value;
      assert done + ([record] + r.value) == (done + [record]) + r.value;
    }
  }

  method DecodeRecords(input: seq<byte>) returns (r: Result<seq<SyncRecord>, WireError>)
    ensures r == DecodedRecords(input)
  {
    var out: seq<SyncRecord> := [];
    var reader := new Reader(input, SYNC_VERSION);
    PrependRecord([], Unknown(0), DecodedRecords(input));
    while true
      invariant reader.Valid() && reader.version == SYNC_VERSION && fresh(reader)
      invariant DecodedRecords(input) == Prepend(out, DecodedRecords(reader.Ahead()))
      decreases |reader.Ahead()|
    {
      var item := reader.Next();
      if item.None? {
        assert out + [] == out;
        return Ok(out);
      }
      if item.value.Err? {
        return Err(BadRecord);
      }
      var record := FromFramed(item.value.value);
      if record.Err? {
        return Err(record.error);
      }
      PrependRecord(out, record.value, DecodedRecords(reader.Ahead()));
      out := out + [record.value];
    }
  }

  function EncodedRecords(records: seq<SyncRecord>): Result<seq<byte>, WireError> {
    if records == [] then Ok([])
    else
      var first :- EncodedRecord(records[0]);
      var others :- EncodedRecords(records[1..]);
      Ok(first + others)
  }

  predicate AllKnown(records: seq<SyncRecord>) {
    forall i :: 0 <= i < |records| ==> !records[i].Unknown?
  }

  /** Records written one after another read back as the same records. */
  lemma {:induction false} ReadsBackRecords(records: seq<SyncRecord>)
    requires EncodedRecords(records).Ok?
    ensures DecodedRecords(EncodedRecords(records).value) == Ok(records) && AllKnown(records)
  {
    if records != [] {
      ReadsBackRecords(records[1..]);
      var framed := Record(SYNC_VERSION, TypeOf(records[0]), PayloadOf(records[0]).value);
      FramedIsNext(framed, EncodedRecords(records[1..]).value);
      FromFramedInverse(framed, records[0]);
      assert records == [records[0]] + records[1..];
    }
  }

  /** What reads as known records is what they are written as. */
  lemma {:induction false} ReadRecordsAreWritten(s: seq<byte>)
    requires DecodedRecords(s).Ok? && AllKnown(DecodedRecords(s).value)
    ensures EncodedRecords(DecodedRecords(s).value) == Ok(s)
    decreases |s|
  {
    if s != [] {
      var framed := NextOf(SYNC_VERSION, s).value;
      var rest := s[HEADER_LEN + |framed.payload|..];
      var first, others := FromFramed(framed).value, DecodedRecords(rest).value;
      var all := [first] + others;
      assert all[0] == first && all[1..] == others;
      assert !all[0].Unknown?;
      forall i | 0 <= i < |others| ensures !others[i].Unknown? {
        assert !all[i + 1].Unknown?;
      }
      ReadRecordsAreWritten(rest);
      NextIsFramed(SYNC_VERSION, s);
      FromFramedInverse(framed, first);
    }
  }

  /** Known records are read from exactly the bytes they are written as. */
  lemma {:induction false} RecordsWireInverse(s: seq<byte>, records: seq<SyncRecord>)
    requires AllKnown(records)
    ensures DecodedRecords(s) == Ok(records) <==> EncodedRecords(records) == Ok(s)
  {
    if DecodedRecords(s) == Ok(records) {
      ReadRecordsAreWritten(s);
    }
    if EncodedRecords(records) == Ok(s) {
      ReadsBackRecords(records);
    }
  }

  // The plan's output.

  predicate BodiesFit(entries: seq<Entry>) {
    forall i :: 0 <= i < |entries| && entries[i].message.Some? ==>
      |entries[i].message.value.message.body| <= MAX_MESSAGE_BODY_LEN
  }

  lemma {:induction false} MessagesEncode(actions: seq<Action>)
    requires forall i :: 0 <= i < |actions| && actions[i].SendMessage? ==>
               |actions[i].signed.message.body| <= MAX_MESSAGE_BODY_LEN
    ensures forall r :: r in Messages(actions) ==> Encodes(r)
  {
    if actions != [] {
      MessagesEncode(actions[..|actions| - 1]);
    }
  }

  lemma {:induction false} AcksAreFew(entries: seq<Entry>)
    ensures |Acks(entries)| <= |entries|
  {
    if entries != [] {
      AcksAreFew(entries[..|entries| - 1]);
    }
  }

  lemma {:induction false} AllEncode(records: seq<SyncRecord>)
    ensures EncodedRecords(records).Ok? <==> forall r :: r in records ==> Encodes(r)
  {
    if records != [] {
      AllEncode(records[1..]);
      EncodesMeansWritten(records[0]);
      assert forall r :: r in records <==> r == records[0] || r in records[1..];
    }
  }

  /** The plan writes whole, whatever it holds of messages, as long as its identifier lists fit a record. */
  lemma PlanEncodesWhen(mode: Mode, nowMs: u64, entries: seq<Entry>, offered: seq<MessageId>)
    requires BodiesFit(entries)
    ensures EncodedRecords(Planned(mode, nowMs, entries, offered)).Ok? <==>
            && |Acks(entries)| <= MAX_IDS
            && |offered| <= MAX_IDS
            && |Gone(Actions(mode, nowMs, entries))| <= MAX_IDS
            && |Offers(Actions(mode, nowMs, entries))| <= MAX_IDS
  {
    var actions := Actions(mode, nowMs, entries);
    MessagesEncode(actions);
    AllEncode(Planned(mode, nowMs, entries, offered));
    RecordsEncodeWhen(Acks(entries), offered, Gone(actions), Messages(actions), Offers(actions));
  }

  lemma RecordsEncodeWhen(acks: seq<MessageId>, wanted: seq<MessageId>, gone: seq<MessageId>,
                          messages: seq<SyncRecord>, offers: seq<MessageId>)
    requires forall r :: r in messages ==> Encodes(r)
    ensures (forall r :: r in Records(acks, wanted, gone, messages, offers) ==> Encodes(r)) <==>
              |acks| <= MAX_IDS && |wanted| <= MAX_IDS && |gone| <= MAX_IDS && |offers| <= MAX_IDS
  {
    var records := Records(acks, wanted, gone, messages, offers);
    var parts := {IfAny(acks, Ack(acks)), IfAny(wanted, Request(wanted)), IfAny(gone, Unavailable(gone)),
                  messages, IfAny(offers, Offer(offers))};
    assert forall r :: r in records <==> exists part :: part in parts && r in part;
    IfAnyEncodesWhen(acks, Ack(acks));
    IfAnyEncodesWhen(wanted, Request(wanted));
    IfAnyEncodesWhen(gone, Unavailable(gone));
    IfAnyEncodesWhen(offers, Offer(offers));
    if forall r :: r in records ==> Encodes(r) {
      forall part, r | part in parts && r in part ensures Encodes(r) {
        assert r in records;
      }
    }
  }

  lemma IfAnyEncodesWhen(ids: seq<MessageId>, record: SyncRecord)
    requires record in {Ack(ids), Request(ids), Unavailable(ids), Offer(ids)}
    ensures (forall r :: r in IfAny(ids, record) ==> Encodes(r)) <==> |ids| <= MAX_IDS
  {
    assert ids != [] ==> record in IfAny(ids, record);
  }

  /**
   * What a plan sends arrives: with no more than 1536 shared messages and as
   * many identifiers offered, every record can be written, and the records
   * written one after another read back as the plan.
   */
  lemma {:induction false} PlanSurvivesTheWire(mode: Mode, nowMs: u64, entries: seq<Entry>, offered: seq<MessageId>)
    requires |entries| <= MAX_IDS && |offered| <= MAX_IDS && BodiesFit(entries)
    ensures var records := Planned(mode, nowMs, entries, offered);
            EncodedRecords(records).Ok? && DecodedRecords(EncodedRecords(records).value) == Ok(records)
  {
    AcksAreFew(entries);
    ActedIsWhatGoesOut(Actions(mode, nowMs, entries));
    PlanEncodesWhen(mode, nowMs, entries, offered);
    ReadsBackRecords(Planned(mode, nowMs, entries, offered));
  }

  // What a reader does with types it does not know, and the layout.

  /** A record of a type above 4 is handed over as unknown, whatever it holds, and the rest is read as ever. */
  lemma UnknownIsPassedOver(framed: Record, rest: seq<byte>)
    requires framed.version == SYNC_VERSION && framed.recordType > 4 && |framed.payload| <= MAX_PAYLOAD_LEN
    ensures FromFramed(framed) == Ok(Unknown(framed.recordType))
    ensures DecodedRecords(Framed(framed) + rest) == Prepend([Unknown(framed.recordType)], DecodedRecords(rest))
  {
    FramedIsNext(framed, rest);
  }

  /** The identifiers lie one after another. */
  lemma {:induction false} IdentifiersLieInOrder(ids: seq<MessageId>, i: nat)
    requires i < |ids|
    ensures HASH_LEN * i + HASH_LEN <= |Flat(ids)|
    ensures Flat(ids)[HASH_LEN * i..HASH_LEN * i + HASH_LEN] == ids[i]
  {
    var n := |ids| - 1;
    if i < n {
      IdentifiersLieInOrder(ids[..n], i);
    }
  }

  /** The version, type and payload of every record that can be written. */
  lemma WrittenAs(record: SyncRecord)
    requires Encodes(record)
    ensures var payload := if record.MessageRecord? then Header(record.signed) + record.signed.message.body
                           else Flat(record.ids);
            EncodedRecord(record) == Ok(Framed(Record(1, TypeOf(record), payload)))
  {
  }

  lemma TypesAre(ids: seq<MessageId>, signed: SignedMessage)
    ensures TypeOf(Ack(ids)) == 0 && TypeOf(MessageRecord(signed)) == 1 && TypeOf(Offer(ids)) == 2
    ensures TypeOf(Request(ids)) == 3 && TypeOf(Unavailable(ids)) == 4
  {
  }
}
