/** One opportunity to send: what goes out, and what the per-peer state becomes. */
module Plan {
  import opened Words
  import opened Peer
  import opened SyncMessage

  datatype Mode = Interactive | Batch | Eager

  datatype SyncRecord =
    | Ack(ids: seq<MessageId>)
    | MessageRecord(signed: SignedMessage)
    | Offer(ids: seq<MessageId>)
    | Request(ids: seq<MessageId>)
    | Unavailable(ids: seq<MessageId>)
    | Unknown(recordType: byte)

  /** A shared message: its state is updated in place, and the message may be gone. */
  datatype Shared = Shared(id: MessageId, state: PeerMessageState, message: Option<SignedMessage>)

  /** A shared message as a value. */
  datatype Entry = Entry(id: MessageId, state: PeerState, message: Option<SignedMessage>)

  // The specification, entry by entry.

  /** What one entry adds to what goes out, its acknowledgement aside. */
  datatype Action =
    | Nothing
    | SendMessage(signed: SignedMessage)
    | SendUnavailable(id: MessageId)
    | SendOffer(id: MessageId)

  predicate Ready(mode: Mode, nowMs: u64, state: PeerState) {
    mode.Eager? || nowMs >= state.nextSendTime
  }

  function ActionOf(mode: Mode, nowMs: u64, e: Entry): Action {
    if !Ready(mode, nowMs, e.state) then Nothing
    else if e.state.requested || (!mode.Interactive? && !e.state.seen) then
      if e.message.Some? then SendMessage(e.message.value) else SendUnavailable(e.id)
    else if mode.Interactive? && !e.state.seen then SendOffer(e.id)
    else Nothing
  }

  function StateAfter(mode: Mode, nowMs: u64, latency: u64, e: Entry): PeerState {
    var acknowledged := e.state.(ackPending := false);
    if ActionOf(mode, nowMs, e).Nothing? then acknowledged else Sent(acknowledged, nowMs, latency)
  }

  function Acks(entries: seq<Entry>): seq<MessageId> {
    if entries == [] then []
    else
      var last := entries[|entries| - 1];
      Acks(entries[..|entries| - 1]) + (if last.state.ackPending then [last.id] else [])
  }

  function Actions(mode: Mode, nowMs: u64, entries: seq<Entry>): (actions: seq<Action>)
    ensures |actions| == |entries|
  {
    seq(|entries|, i requires 0 <= i < |entries| => ActionOf(mode, nowMs, entries[i]))
  }

  function Messages(actions: seq<Action>): seq<SyncRecord> {
    if actions == [] then []
    else
      var last := actions[|actions| - 1];
      Messages(actions[..|actions| - 1]) + (if last.SendMessage? then [MessageRecord(last.signed)] else [])
  }

  function Gone(actions: seq<Action>): seq<MessageId> {
    if actions == [] then []
    else
      var last := actions[|actions| - 1];
      Gone(actions[..|actions| - 1]) + (if last.SendUnavailable? then [last.id] else [])
  }

  function Offers(actions: seq<Action>): seq<MessageId> {
    if actions == [] then []
    else
      var last := actions[|actions| - 1];
      Offers(actions[..|actions| - 1]) + (if last.SendOffer? then [last.id] else [])
  }

  /** An identifier record, unless it would be empty. */
  function IfAny(ids: seq<MessageId>, record: SyncRecord): seq<SyncRecord> {
    if ids == [] then [] else [record]
  }

  function Records(acks: seq<MessageId>, wanted: seq<MessageId>, gone: seq<MessageId>,
                   messages: seq<SyncRecord>, offers: seq<MessageId>): seq<SyncRecord> {
    IfAny(acks, Ack(acks)) + IfAny(wanted, Request(wanted)) + IfAny(gone, Unavailable(gone))
      + messages + IfAny(offers, Offer(offers))
  }

  function Planned(mode: Mode, nowMs: u64, entries: seq<Entry>, offeredByPeer: seq<MessageId>): seq<SyncRecord> {
    var actions := Actions(mode, nowMs, entries);
    Records(Acks(entries), offeredByPeer, Gone(actions), Messages(actions), Offers(actions))
  }

  function EntriesAfter(mode: Mode, nowMs: u64, latency: u64, entries: seq<Entry>): (after: seq<Entry>)
    ensures |after| == |entries|
  {
    seq(|entries|, i requires 0 <= i < |entries| =>
      entries[i].(state := StateAfter(mode, nowMs, latency, entries[i])))
  }

  // The scheduler as it runs.

  function States(shared: seq<Shared>): set<PeerMessageState> {
    set i | 0 <= i < |shared| :: shared[i].state
  }

  function EntryNow(shared: Shared): Entry
    reads shared.state
  {
    Entry(shared.id, shared.state.Now(), shared.message)
  }

  function EntriesNow(shared: seq<Shared>): (entries: seq<Entry>)
    reads States(shared)
    ensures |entries| == |shared|
  {
    seq(|shared|, i requires 0 <= i < |shared| reads States(shared) => EntryNow(shared[i]))
  }

  lemma ActionsPush(mode: Mode, nowMs: u64, entries: seq<Entry>, k: nat)
    requires k < |entries|
    ensures Actions(mode, nowMs, entries[..k + 1])
         == Actions(mode, nowMs, entries[..k]) + [ActionOf(mode, nowMs, entries[k])]
    ensures entries[..k + 1] == entries[..k] + [entries[k]]
  {
  }

  /** What one entry more adds to each of the four lists. */
  lemma OneEntryMore(mode: Mode, nowMs: u64, entries: seq<Entry>, k: nat)
    requires k < |entries|
    ensures var e, a := entries[k], ActionOf(mode, nowMs, entries[k]);
            var before, after := Actions(mode, nowMs, entries[..k]), Actions(mode, nowMs, entries[..k + 1]);
            && Acks(entries[..k + 1]) == Acks(entries[..k]) + (if e.state.ackPending then [e.id] else [])
            && Messages(after) == Messages(before) + (if a.SendMessage? then [MessageRecord(a.signed)] else [])
            && Gone(after) == Gone(before) + (if a.SendUnavailable? then [a.id] else [])
            && Offers(after) == Offers(before) + (if a.SendOffer? then [a.id] else [])
  {
    ActionsPush(mode, nowMs, entries, k);
    Pushes(Actions(mode, nowMs, entries[..k]), ActionOf(mode, nowMs, entries[k]), entries[..k], entries[k]);
  }

  /** Pushing one entry's contribution to each of the four lists. */
  lemma Pushes(actions: seq<Action>, a: Action, entries: seq<Entry>, e: Entry)
    ensures Acks(entries + [e]) == Acks(entries) + (if e.state.ackPending then [e.id] else [])
    ensures Messages(actions + [a]) == Messages(actions) + (if a.SendMessage? then [MessageRecord(a.signed)] else [])
    ensures Gone(actions + [a]) == Gone(actions) + (if a.SendUnavailable? then [a.id] else [])
    ensures Offers(actions + [a]) == Offers(actions) + (if a.SendOffer? then [a.id] else [])
  {
    assert (actions + [a])[..|actions|] == actions && (entries + [e])[..|entries|] == entries;
  }

  /** The turn of one entry: whether an acknowledgement is owed, and what else goes out for it. */
  method Turn(mode: Mode, nowMs: u64, latency: u64, entry: Shared) returns (owed: bool, action: Action)
    modifies entry.state
    ensures owed == old(entry.state.ackPending)
    ensures action == ActionOf(mode, nowMs, old(EntryNow(entry)))
    ensures entry.state.Now() == StateAfter(mode, nowMs, latency, old(EntryNow(entry)))
  {
    owed := entry.state.ackPending;
    if owed {
      entry.state.OnAcknowledged();
    }
    // Eager mode ignores the backoff.
    var ready := mode.Eager? || entry.state.ReadyToSend(nowMs);
    if !ready {
      return owed, Nothing;
    }
    var wanted := entry.state.requested;
    var send := if mode.Interactive? then wanted else wanted || !entry.state.seen;
    action := Nothing;
    if send {
      action := if entry.message.Some? then SendMessage(entry.message.value) else SendUnavailable(entry.id);
      entry.state.OnSent(nowMs, latency);
    } else if mode.Interactive? && !entry.state.seen {
      action := SendOffer(entry.id);
      entry.state.OnSent(nowMs, latency);
    }
  }

  predicate Distinct(shared: seq<Shared>) {
    forall i, j :: 0 <= i < j < |shared| ==> shared[i].state != shared[j].state
  }

  /** All entries in turn, collected into the four lists. */
  method Collect(mode: Mode, nowMs: u64, latency: u64, shared: seq<Shared>, ghost entries: seq<Entry>)
    returns (acks: seq<MessageId>, unavailable: seq<MessageId>, messages: seq<SyncRecord>, offers: seq<MessageId>)
    requires Distinct(shared) && |entries| == |shared|
    requires forall j :: 0 <= j < |shared| ==> EntryNow(shared[j]) == entries[j]
    modifies States(shared)
    ensures acks == Acks(entries)
    ensures messages == Messages(Actions(mode, nowMs, entries))
    ensures unavailable == Gone(Actions(mode, nowMs, entries)) && offers == Offers(Actions(mode, nowMs, entries))
    ensures forall j :: 0 <= j < |shared| ==> shared[j].state.Now() == StateAfter(mode, nowMs, latency, entries[j])
  {
    acks, unavailable, messages, offers := [], [], [], [];
    for k := 0 to |shared|
      invariant acks == Acks(entries[..k]) && messages == Messages(Actions(mode, nowMs, entries[..k]))
      invariant unavailable == Gone(Actions(mode, nowMs, entries[..k]))
      invariant offers == Offers(Actions(mode, nowMs, entries[..k]))
      invariant forall j :: 0 <= j < k ==> shared[j].state.Now() == StateAfter(mode, nowMs, latency, entries[j])
      invariant forall j :: k <= j < |shared| ==> shared[j].state.Now() == entries[j].state
    {
      assert EntryNow(shared[k]) == entries[k];
      assert shared[k].state in States(shared);
      var owed, action := Turn(mode, nowMs, latency, shared[k]);
      OneEntryMore(mode, nowMs, entries, k);
      acks := acks + (if owed then [shared[k].id] else []);
      messages := messages + (if action.SendMessage? then [MessageRecord(action.signed)] else []);
      unavailable := unavailable + (if action.SendUnavailable? then [action.id] else []);
      offers := offers + (if action.SendOffer? then [action.id] else []);
    }
    assert entries[..|shared|] == entries;
  }

  method PlanSend(mode: Mode, nowMs: u64, latency: u64, shared: seq<Shared>, offeredByPeer: seq<MessageId>)
    returns (records: seq<SyncRecord>)
    requires Distinct(shared)
    modifies States(shared)
    ensures records == Planned(mode, nowMs, old(EntriesNow(shared)), offeredByPeer)
    ensures EntriesNow(shared) == EntriesAfter(mode, nowMs, latency, old(EntriesNow(shared)))
  {
    ghost var entries := EntriesNow(shared);
    var acks, unavailable, messages, offers := Collect(mode, nowMs, latency, shared, entries);
    records := Assembled(acks, offeredByPeer, unavailable, messages, offers);
  }

  /** Nothing empty goes out. */
  method Assembled(acks: seq<MessageId>, wanted: seq<MessageId>, unavailable: seq<MessageId>,
                   messages: seq<SyncRecord>, offers: seq<MessageId>) returns (records: seq<SyncRecord>)
    ensures records == Records(acks, wanted, unavailable, messages, offers)
  {
    records := [];
    if acks != [] {
      records := records + [Ack(acks)];
    }
    if wanted != [] {
      records := records + [Request(wanted)];
    }
    if unavailable != [] {
      records := records + [Unavailable(unavailable)];
    }
    records := records + messages;
    if offers != [] {
      records := records + [Offer(offers)];
    }
  }
}
