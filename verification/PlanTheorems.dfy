/** What one opportunity to send conserves, and when the next one is quiet. */
module PlanTheorems {
  import opened Words
  import opened Peer
  import opened SyncMessage
  import opened Plan

  // Counting.

  /** Messages, and identifiers offered or answered as unavailable. */
  function Items(records: seq<SyncRecord>): nat {
    if records == [] then 0
    else
      var last := records[|records| - 1];
      Items(records[..|records| - 1])
        + (if last.MessageRecord? then 1 else if last.Offer? || last.Unavailable? then |last.ids| else 0)
  }

  lemma {:induction false} ItemsJoin(a: seq<SyncRecord>, b: seq<SyncRecord>)
    ensures Items(a + b) == Items(a) + Items(b)
  {
    if b == [] {
      assert a + b == a;
    } else {
      ItemsJoin(a, b[..|b| - 1]);
      assert (a + b)[..|a + b| - 1] == a + b[..|b| - 1];
    }
  }

  lemma OneRecord(record: SyncRecord)
    ensures Items([record])
         == if record.MessageRecord? then 1 else if record.Offer? || record.Unavailable? then |record.ids| else 0
  {
    assert [record][..0] == [];
  }

  function Acted(actions: seq<Action>): nat {
    if actions == [] then 0
    else Acted(actions[..|actions| - 1]) + (if actions[|actions| - 1].Nothing? then 0 else 1)
  }

  lemma {:induction false} ActedIsWhatGoesOut(actions: seq<Action>)
    ensures Items(Messages(actions)) + |Gone(actions)| + |Offers(actions)| == Acted(actions) <= |actions|
  {
    if actions != [] {
      var last := actions[|actions| - 1];
      ActedIsWhatGoesOut(actions[..|actions| - 1]);
      if last.SendMessage? {
        ItemsJoin(Messages(actions[..|actions| - 1]), [MessageRecord(last.signed)]);
        OneRecord(MessageRecord(last.signed));
      } else {
        assert Messages(actions[..|actions| - 1]) + [] == Messages(actions[..|actions| - 1]);
      }
    }
  }

  lemma IfAnyItems(ids: seq<MessageId>, record: SyncRecord)
    requires record in {Ack(ids), Request(ids), Unavailable(ids), Offer(ids)}
    ensures Items(IfAny(ids, record)) == if record.Unavailable? || record.Offer? then |ids| else 0
  {
    OneRecord(record);
  }

  lemma RecordsItems(acks: seq<MessageId>, wanted: seq<MessageId>, gone: seq<MessageId>,
                     messages: seq<SyncRecord>, offers: seq<MessageId>)
    ensures Items(Records(acks, wanted, gone, messages, offers)) == |gone| + Items(messages) + |offers|
  {
    var a, w := IfAny(acks, Ack(acks)), IfAny(wanted, Request(wanted));
    var g, o := IfAny(gone, Unavailable(gone)), IfAny(offers, Offer(offers));
    IfAnyItems(acks, Ack(acks));
    IfAnyItems(wanted, Request(wanted));
    IfAnyItems(gone, Unavailable(gone));
    IfAnyItems(offers, Offer(offers));
    ItemsJoin(a, w);
    ItemsJoin(a + w, g);
    ItemsJoin(a + w + g, messages);
    ItemsJoin(a + w + g + messages, o);
  }

  function SendTotal(entries: seq<Entry>): nat {
    if entries == [] then 0
    else SendTotal(entries[..|entries| - 1]) + entries[|entries| - 1].state.sendCount
  }

  /** Entries acted on whose count can grow no further. */
  function StuckCounts(mode: Mode, nowMs: u64, entries: seq<Entry>): nat {
    if entries == [] then 0
    else
      var last := entries[|entries| - 1];
      StuckCounts(mode, nowMs, entries[..|entries| - 1])
        + (if !ActionOf(mode, nowMs, last).Nothing? && last.state.sendCount == U32_MAX then 1 else 0)
  }

  lemma {:induction false} CountsGrow(mode: Mode, nowMs: u64, latency: u64, entries: seq<Entry>)
    ensures SendTotal(EntriesAfter(mode, nowMs, latency, entries)) + StuckCounts(mode, nowMs, entries)
         == SendTotal(entries) + Acted(Actions(mode, nowMs, entries))
  {
    if entries != [] {
      var init := entries[..|entries| - 1];
      CountsGrow(mode, nowMs, latency, init);
      var after := EntriesAfter(mode, nowMs, latency, entries);
      assert after[..|entries| - 1] == EntriesAfter(mode, nowMs, latency, init);
      assert Actions(mode, nowMs, entries)[..|entries| - 1] == Actions(mode, nowMs, init);
    }
  }

  /**
   * Conservation: every entry adds at most one message or identifier, and the
   * counts of sends grow in all by exactly what went out, but for counts that
   * were already at their greatest.
   */
  lemma PlanConserves(mode: Mode, nowMs: u64, latency: u64, entries: seq<Entry>, offered: seq<MessageId>)
    ensures Items(Planned(mode, nowMs, entries, offered)) <= |entries|
    ensures SendTotal(EntriesAfter(mode, nowMs, latency, entries)) + StuckCounts(mode, nowMs, entries)
         == SendTotal(entries) + Items(Planned(mode, nowMs, entries, offered))
  {
    var actions := Actions(mode, nowMs, entries);
    ActedIsWhatGoesOut(actions);
    RecordsItems(Acks(entries), offered, Gone(actions), Messages(actions), Offers(actions));
    CountsGrow(mode, nowMs, latency, entries);
  }

  // Acknowledgements.

  /** The identifiers of the entries that owe an acknowledgement, as a filter would list them. */
  lemma {:induction false} AcksAreOwed(entries: seq<Entry>, id: MessageId)
    ensures id in Acks(entries)
       <==> exists i :: 0 <= i < |entries| && entries[i].id == id && entries[i].state.ackPending
  {
    if entries != [] {
      var n := |entries| - 1;
      AcksAreOwed(entries[..n], id);
      if entries[n].id == id && entries[n].state.ackPending {
        assert entries[n].id == id && entries[n].state.ackPending;
      }
      if i :| 0 <= i < |entries| && entries[i].id == id && entries[i].state.ackPending {
        if i < n {
          assert entries[..n][i] == entries[i];
        }
      }
      if i :| 0 <= i < n && entries[..n][i].id == id && entries[..n][i].state.ackPending {
        assert entries[i].id == id && entries[i].state.ackPending;
      }
    }
  }

  /** Every acknowledgement owed goes out at once, and none is owed afterwards. */
  lemma AcksGoOutOnce(mode: Mode, nowMs: u64, latency: u64, entries: seq<Entry>, offered: seq<MessageId>)
    ensures Acks(entries) != [] ==> Planned(mode, nowMs, entries, offered)[0] == Ack(Acks(entries))
    ensures Acks(EntriesAfter(mode, nowMs, latency, entries)) == []
  {
    NothingOwed(EntriesAfter(mode, nowMs, latency, entries));
  }

  lemma {:induction false} NothingOwed(entries: seq<Entry>)
    requires forall i :: 0 <= i < |entries| ==> !entries[i].state.ackPending
    ensures Acks(entries) == []
  {
    if entries != [] {
      NothingOwed(entries[..|entries| - 1]);
    }
  }

  /** Every identifier record says at least one identifier. */
  predicate SaysSomething(record: SyncRecord) {
    record.MessageRecord? || record.Unknown? || record.ids != []
  }

  lemma {:induction false} MessagesSaySomething(actions: seq<Action>)
    ensures forall r :: r in Messages(actions) ==> r.MessageRecord?
  {
    if actions != [] {
      MessagesSaySomething(actions[..|actions| - 1]);
    }
  }

  lemma NothingEmptyGoesOut(mode: Mode, nowMs: u64, entries: seq<Entry>, offered: seq<MessageId>)
    ensures forall r :: r in Planned(mode, nowMs, entries, offered) ==> SaysSomething(r)
  {
    MessagesSaySomething(Actions(mode, nowMs, entries));
  }

  // A second plan at the same time.

  predicate Quiet(records: seq<SyncRecord>, offered: seq<MessageId>) {
    records == IfAny(offered, Request(offered))
  }

  lemma {:induction false} NothingHappens(actions: seq<Action>)
    ensures Acted(actions) == 0 <==> forall i :: 0 <= i < |actions| ==> actions[i].Nothing?
    ensures Acted(actions) == 0 <==> Messages(actions) == [] && Gone(actions) == [] && Offers(actions) == []
  {
    if actions != [] {
      var n := |actions| - 1;
      NothingHappens(actions[..n]);
      assert actions == actions[..n] + [actions[n]];
    }
  }

  lemma {:induction false} QuietMeansNothing(mode: Mode, nowMs: u64, entries: seq<Entry>, offered: seq<MessageId>)
    requires Acks(entries) == []
    ensures Quiet(Planned(mode, nowMs, entries, offered), offered)
       <==> forall i :: 0 <= i < |entries| ==> ActionOf(mode, nowMs, entries[i]).Nothing?
  {
    var actions := Actions(mode, nowMs, entries);
    NothingHappens(actions);
    var request := IfAny(offered, Request(offered));
    var rest := IfAny(Gone(actions), Unavailable(Gone(actions))) + Messages(actions)
                + IfAny(Offers(actions), Offer(Offers(actions)));
    assert Planned(mode, nowMs, entries, offered) == request + rest;
    assert request + rest == request <==> rest == [] by {
      if request + rest == request {
        assert |rest| == 0;
      }
    }
    assert forall i :: 0 <= i < |entries| ==> actions[i] == ActionOf(mode, nowMs, entries[i]);
  }

  /** What an entry does when asked again at once. */
  lemma AskedAgain(mode: Mode, nowMs: u64, latency: u64, e: Entry)
    ensures ActionOf(mode, nowMs, e.(state := StateAfter(mode, nowMs, latency, e))).Nothing?
       <==> e.state.seen || (!mode.Eager? && nowMs < U64_MAX)
  {
  }

  /**
   * A second plan at the same time emits nothing but the request, exactly when
   * every message has been seen by the peer, or the mode respects the backoff
   * and the clock is not at its end, where a send time cannot lie later.
   */
  lemma SecondPlanIsQuiet(
    mode: Mode, nowMs: u64, latency: u64, entries: seq<Entry>, offered: seq<MessageId>)
    ensures Quiet(Planned(mode, nowMs, EntriesAfter(mode, nowMs, latency, entries), offered), offered)
       <==> (forall i :: 0 <= i < |entries| ==> entries[i].state.seen) || (!mode.Eager? && nowMs < U64_MAX)
  {
    var after := EntriesAfter(mode, nowMs, latency, entries);
    AcksGoOutOnce(mode, nowMs, latency, entries, offered);
    QuietMeansNothing(mode, nowMs, after, offered);
    forall i | 0 <= i < |entries|
      ensures ActionOf(mode, nowMs, after[i]).Nothing?
         <==> entries[i].state.seen || (!mode.Eager? && nowMs < U64_MAX)
    {
      AskedAgain(mode, nowMs, latency, entries[i]);
    }
  }

  /** At the end of the clock an unseen message is offered again at once. */
  lemma OfferedTwiceAtTheEnd(id: MessageId, message: Option<SignedMessage>, latency: u64)
    ensures var entries := [Entry(id, NEW, message)];
            !Quiet(Planned(Interactive, U64_MAX, EntriesAfter(Interactive, U64_MAX, latency, entries), []), [])
  {
    var entries := [Entry(id, NEW, message)];
    SecondPlanIsQuiet(Interactive, U64_MAX, latency, entries, []);
    assert !entries[0].state.seen;
  }

  // The order of what goes out.

  lemma {:induction false} AcksJoin(a: seq<Entry>, b: seq<Entry>)
    ensures Acks(a + b) == Acks(a) + Acks(b)
  {
    if b == [] {
      assert a + b == a;
    } else {
      AcksJoin(a, b[..|b| - 1]);
      assert (a + b)[..|a + b| - 1] == a + b[..|b| - 1];
    }
  }

  lemma {:induction false} MessagesJoin(a: seq<Action>, b: seq<Action>)
    ensures Messages(a + b) == Messages(a) + Messages(b)
  {
    if b == [] {
      assert a + b == a;
    } else {
      MessagesJoin(a, b[..|b| - 1]);
      assert (a + b)[..|a + b| - 1] == a + b[..|b| - 1];
    }
  }

  lemma {:induction false} GoneJoins(a: seq<Action>, b: seq<Action>)
    ensures Gone(a + b) == Gone(a) + Gone(b)
  {
    if b == [] {
      assert a + b == a;
    } else {
      GoneJoins(a, b[..|b| - 1]);
      assert (a + b)[..|a + b| - 1] == a + b[..|b| - 1];
    }
  }

  lemma {:induction false} OffersJoin(a: seq<Action>, b: seq<Action>)
    ensures Offers(a + b) == Offers(a) + Offers(b)
  {
    if b == [] {
      assert a + b == a;
    } else {
      OffersJoin(a, b[..|b| - 1]);
      assert (a + b)[..|a + b| - 1] == a + b[..|b| - 1];
    }
  }

  /** Each list takes the entries in the order given. */
  lemma ListsKeepOrder(mode: Mode, nowMs: u64, a: seq<Entry>, b: seq<Entry>)
    ensures var first, second := Actions(mode, nowMs, a), Actions(mode, nowMs, b);
            var all := Actions(mode, nowMs, a + b);
            && Acks(a + b) == Acks(a) + Acks(b)
            && Messages(all) == Messages(first) + Messages(second)
            && Gone(all) == Gone(first) + Gone(second)
            && Offers(all) == Offers(first) + Offers(second)
  {
    var first, second := Actions(mode, nowMs, a), Actions(mode, nowMs, b);
    assert Actions(mode, nowMs, a + b) == first + second;
    AcksJoin(a, b);
    MessagesJoin(first, second);
    GoneJoins(first, second);
    OffersJoin(first, second);
  }

  /** Acknowledgements, the request, what is gone, messages, offers. */
  function Rank(record: SyncRecord): nat {
    match record
    case Ack(_) => 0
    case Request(_) => 1
    case Unavailable(_) => 2
    case MessageRecord(_) => 3
    case Offer(_) => 4
    case Unknown(_) => 5
  }

  predicate Ranked(records: seq<SyncRecord>) {
    forall i, j :: 0 <= i < j < |records| ==> Rank(records[i]) <= Rank(records[j])
  }

  predicate RankedUpTo(records: seq<SyncRecord>, top: nat) {
    Ranked(records) && forall r :: r in records ==> Rank(r) <= top
  }

  lemma RankedJoin(a: seq<SyncRecord>, b: seq<SyncRecord>, top: nat)
    requires RankedUpTo(a, top) && forall r :: r in b ==> Rank(r) == top + 1
    ensures RankedUpTo(a + b, top + 1)
  {
  }

  lemma RecordsAreRanked(acks: seq<MessageId>, wanted: seq<MessageId>, gone: seq<MessageId>,
                         messages: seq<SyncRecord>, offers: seq<MessageId>)
    requires forall r :: r in messages ==> r.MessageRecord?
    ensures Ranked(Records(acks, wanted, gone, messages, offers))
  {
    var a, w := IfAny(acks, Ack(acks)), IfAny(wanted, Request(wanted));
    var g, o := IfAny(gone, Unavailable(gone)), IfAny(offers, Offer(offers));
    RankedJoin(a, w, 0);
    RankedJoin(a + w, g, 1);
    RankedJoin(a + w + g, messages, 2);
    RankedJoin(a + w + g + messages, o, 3);
  }

  lemma RequestIn(acks: seq<MessageId>, wanted: seq<MessageId>, gone: seq<MessageId>,
                  messages: seq<SyncRecord>, offers: seq<MessageId>, ids: seq<MessageId>)
    requires forall r :: r in messages ==> r.MessageRecord?
    ensures Request(ids) in Records(acks, wanted, gone, messages, offers) <==> ids == wanted && ids != []
  {
    assert Request(ids) in IfAny(wanted, Request(wanted)) <==> ids == wanted && ids != [];
  }

  /** The records of a plan come in the order of their kinds, and the request is for what the peer offered. */
  lemma PlanComesInOrder(mode: Mode, nowMs: u64, entries: seq<Entry>, offered: seq<MessageId>)
    ensures Ranked(Planned(mode, nowMs, entries, offered))
    ensures forall ids :: Request(ids) in Planned(mode, nowMs, entries, offered) <==> ids == offered && ids != []
  {
    var actions := Actions(mode, nowMs, entries);
    var acks, gone, offers := Acks(entries), Gone(actions), Offers(actions);
    MessagesSaySomething(actions);
    RecordsAreRanked(acks, offered, gone, Messages(actions), offers);
    forall ids
      ensures Request(ids) in Records(acks, offered, gone, Messages(actions), offers) <==> ids == offered && ids != []
    {
      RequestIn(acks, offered, gone, Messages(actions), offers, ids);
    }
  }
}
