/** The table of modes in the sync design, and where one opportunity to send departs from it. */
module PlanTable {
  import opened Words
  import opened Peer
  import opened SyncMessage
  import opened Plan
  import opened Backoff

  /**
   * What the table may mean by "what it shares". The sync layer's `Shared`
   * keeps a message's place after its body is deleted; the design calls a
   * message either shared or deleted, and has an offer name what the sender
   * holds.
   */
  datatype Sharing = PlaceKept | BodyHeld

  predicate Shares(sharing: Sharing, e: Entry) {
    sharing.PlaceKept? || e.message.Some?
  }

  // The rows of the table, one by one. Each says what it has a mode send for an entry.

  function UnavailableRow(e: Entry): set<Action> {
    if e.state.requested && e.message.None? then {SendUnavailable(e.id)} else {}
  }

  function RequestedRow(mode: Mode, e: Entry): set<Action> {
    if mode.Interactive? && e.state.requested && e.message.Some? then {SendMessage(e.message.value)} else {}
  }

  function OfferRow(sharing: Sharing, mode: Mode, e: Entry): set<Action> {
    if mode.Interactive? && Shares(sharing, e) && !e.state.seen then {SendOffer(e.id)} else {}
  }

  function UnseenRow(mode: Mode, e: Entry): set<Action> {
    if !mode.Interactive? && e.message.Some? && !e.state.seen then {SendMessage(e.message.value)} else {}
  }

  /** Every row that applies, once the backoff allows anything. */
  function TableRows(sharing: Sharing, mode: Mode, nowMs: u64, e: Entry): set<Action> {
    if !Ready(mode, nowMs, e.state) then {}
    else UnavailableRow(e) + RequestedRow(mode, e) + OfferRow(sharing, mode, e) + UnseenRow(mode, e)
  }

  /** The one action the table comes to: an answer to a request stands in for an offer. */
  function TableAction(sharing: Sharing, mode: Mode, nowMs: u64, e: Entry): Action {
    if !Ready(mode, nowMs, e.state) then Nothing
    else if e.state.requested && e.message.None? then SendUnavailable(e.id)
    else if mode.Interactive? then
      if e.state.requested then SendMessage(e.message.value)
      else if Shares(sharing, e) && !e.state.seen then SendOffer(e.id)
      else Nothing
    else if !e.state.seen && e.message.Some? then SendMessage(e.message.value)
    else Nothing
  }

  /** Taking one action loses nothing of the rows, but for the offer of what is answered anyway. */
  lemma TableActionIsItsRows(sharing: Sharing, mode: Mode, nowMs: u64, e: Entry)
    ensures var action := TableAction(sharing, mode, nowMs, e);
            var rows := TableRows(sharing, mode, nowMs, e);
            if Ready(mode, nowMs, e.state) && mode.Interactive? && e.state.requested
               && !e.state.seen && Shares(sharing, e)
            then !action.SendOffer? && rows == {action, SendOffer(e.id)}
            else rows == if action.Nothing? then {} else {action}
  {
  }

  /** Batch and Eager: a message asked for that the peer has seen, or one gone that nobody asked for. */
  predicate DepartsWithoutOffering(e: Entry) {
    if e.message.Some? then e.state.requested && e.state.seen else !e.state.requested && !e.state.seen
  }

  /** Interactive: an offer of a message whose body is gone. */
  predicate OffersWhatIsGone(e: Entry) {
    e.message.None? && !e.state.requested && !e.state.seen
  }

  /**
   * Where the code does as the table says, if a message keeps its place once
   * its body is gone: everywhere, but for Batch and Eager in two cases.
   */
  lemma FollowsTheTableUnless(mode: Mode, nowMs: u64, e: Entry)
    ensures ActionOf(mode, nowMs, e) == TableAction(PlaceKept, mode, nowMs, e)
       <==> !(Ready(mode, nowMs, e.state) && !mode.Interactive? && DepartsWithoutOffering(e))
  {
  }

  /** And if only a message that is held is shared: then Interactive departs from it in one case too. */
  lemma FollowsTheDesignUnless(mode: Mode, nowMs: u64, e: Entry)
    ensures ActionOf(mode, nowMs, e) == TableAction(BodyHeld, mode, nowMs, e)
       <==> !(Ready(mode, nowMs, e.state)
              && if mode.Interactive? then OffersWhatIsGone(e) else DepartsWithoutOffering(e))
  {
  }

  /** The records of a plan for one entry that owes nothing. */
  lemma PlannedForOne(mode: Mode, nowMs: u64, e: Entry)
    requires !e.state.ackPending
    ensures var action := ActionOf(mode, nowMs, e);
            Planned(mode, nowMs, [e], [])
              == if action.SendMessage? then [MessageRecord(action.signed)]
                 else if action.SendUnavailable? then [Unavailable([action.id])]
                 else if action.SendOffer? then [Offer([action.id])]
                 else []
  {
    var action := ActionOf(mode, nowMs, e);
    var actions := Actions(mode, nowMs, [e]);
    assert actions == [action] && actions[..0] == [] && [e][..0] == [];
    assert Acks([e]) == [];
    assert Messages(actions) == if action.SendMessage? then [MessageRecord(action.signed)] else [];
    assert Gone(actions) == if action.SendUnavailable? then [action.id] else [];
    assert Offers(actions) == if action.SendOffer? then [action.id] else [];
  }

  // The three cases, each at an input a peer can bring about.

  /** The peer acknowledged a message and then asked for it: Batch and Eager send it, the table nothing. */
  lemma RequestedAfterSeenIsSent(mode: Mode, id: MessageId, signed: SignedMessage)
    requires !mode.Interactive?
    ensures var e := Entry(id, StateAt([PeerAcked, PeerRequested], 2), Some(signed));
            && Planned(mode, 0, [e], []) == [MessageRecord(signed)]
            && forall sharing :: TableRows(sharing, mode, 0, e) == {}
  {
    var history := [PeerAcked, PeerRequested];
    assert StateAt(history, 1) == NEW.(seen := true);
    assert StateAt(history, 2) == NEW.(seen := true, requested := true);
    PlannedForOne(mode, 0, Entry(id, StateAt(history, 2), Some(signed)));
  }

  /** A message gone before it was ever sent: Batch and Eager report it, the table nothing. */
  lemma GoneIsReportedUnasked(mode: Mode, id: MessageId)
    requires !mode.Interactive?
    ensures var e := Entry(id, NEW, None);
            && Planned(mode, 0, [e], []) == [Unavailable([id])]
            && forall sharing :: TableRows(sharing, mode, 0, e) == {}
  {
    PlannedForOne(mode, 0, Entry(id, NEW, None));
  }

  /** The same message in Interactive mode: it is offered, though the sender does not hold it. */
  lemma GoneIsOffered(id: MessageId)
    ensures var e := Entry(id, NEW, None);
            && Planned(Interactive, 0, [e], []) == [Offer([id])]
            && TableRows(BodyHeld, Interactive, 0, e) == {}
  {
    PlannedForOne(Interactive, 0, Entry(id, NEW, None));
  }
}
