/** How far apart a message is sent to one peer, over any history. */
module Backoff {
  import opened Words
  import opened Peer
  import opened SyncMessage
  import opened Plan

  /** Something that happens to one message and one peer. */
  datatype Happening =
    | Opportunity(mode: Mode, nowMs: u64, latency: u64, id: MessageId, message: Option<SignedMessage>)
    | PeerAcked
    | PeerOffered
    | PeerRequested

  /** Whether the message is sent, offered, or answered as unavailable. */
  predicate Acts(h: Happening, s: PeerState) {
    h.Opportunity? && !ActionOf(h.mode, h.nowMs, Entry(h.id, s, h.message)).Nothing?
  }

  function Next(h: Happening, s: PeerState): PeerState {
    match h
    case Opportunity(mode, nowMs, latency, id, message) => StateAfter(mode, nowMs, latency, Entry(id, s, message))
    case PeerAcked => s.(seen := true)
    case PeerOffered => s.(seen := true, ackPending := true)
    case PeerRequested => s.(requested := true)
  }

  function StateAt(history: seq<Happening>, n: nat): PeerState
    requires n <= |history|
  {
    if n == 0 then NEW else Next(history[n - 1], StateAt(history, n - 1))
  }

  /** When the message was sent or offered, among the first `n` happenings. */
  function SendTimes(history: seq<Happening>, n: nat): seq<u64>
    requires n <= |history|
  {
    if n == 0 then []
    else if Acts(history[n - 1], StateAt(history, n - 1)) then SendTimes(history, n - 1) + [history[n - 1].nowMs]
    else SendTimes(history, n - 1)
  }

  /** No opportunity ignores the backoff, and none has a latency below `l`. */
  predicate Patient(history: seq<Happening>, l: nat) {
    forall i :: 0 <= i < |history| && history[i].Opportunity? ==>
      !history[i].mode.Eager? && history[i].latency >= l
  }

  /** The backoffs after the first `sends` sends, in all, counted in latencies. */
  function Units(sends: nat): nat {
    if sends == 0 then 0 else Units(sends - 1) + Pow2(Min(sends - 1, MAX_BACKOFF_DOUBLINGS))
  }

  /** They double up to ten times, and then stay. */
  lemma {:induction false} UnitsAre(sends: nat)
    ensures Units(sends) == if sends <= 11 then Pow2(sends) - 1 else 2047 + 1024 * (sends - 11)
  {
    assert Pow2(10) == 1024 && Pow2(11) == 2048;
    if sends > 0 {
      UnitsAre(sends - 1);
    }
  }

  /** The earliest time after `sends` sends, the last of them at `last`, at latency `l`. */
  function Earliest(last: nat, l: nat, sends: nat): nat
    requires sends >= 1
  {
    Min(U64_MAX, last + l * Pow2(Min(sends - 1, MAX_BACKOFF_DOUBLINGS)))
  }

  lemma DelayCovers(sendCount: u32, latency: u64, factor: nat)
    requires sendCount >= 1 && factor == Pow2(Min(sendCount - 1, MAX_BACKOFF_DOUBLINGS))
    ensures Delay(sendCount, latency) >= Min(U64_MAX, latency * factor)
  {
  }

  lemma Later(l: nat, latency: u64, factor: nat, nowMs: u64, delay: u64)
    requires latency >= l && delay >= Min(U64_MAX, latency * factor)
    ensures SatAdd(nowMs, delay) >= Min(U64_MAX, nowMs + l * factor)
  {
    assert latency * factor == l * factor + (latency - l) * factor;
  }

  /** Each send no sooner after the one before than its place in the backoff allows. */
  ghost predicate Spaced(times: seq<u64>, l: nat) {
    forall k :: 0 < k < |times| ==> times[k] >= Earliest(times[k - 1], l, k)
  }

  /** Where the backoff stands once these sends have been made. */
  ghost predicate Stands(s: PeerState, times: seq<u64>, l: nat) {
    && s.sendCount == Min(|times|, U32_MAX)
    && (times != [] ==> s.nextSendTime >= Earliest(times[|times| - 1], l, |times|))
  }

  lemma SendKeepsSpacing(s: PeerState, times: seq<u64>, l: nat, nowMs: u64, latency: u64)
    requires Spaced(times, l) && Stands(s, times, l)
    requires latency >= l && nowMs >= s.nextSendTime
    ensures Spaced(times + [nowMs], l) && Stands(Sent(s, nowMs, latency), times + [nowMs], l)
  {
    var count := Increment(s.sendCount);
    var factor := Pow2(Min(|times|, MAX_BACKOFF_DOUBLINGS));
    assert Min(count - 1, MAX_BACKOFF_DOUBLINGS) == Min(|times|, MAX_BACKOFF_DOUBLINGS);
    DelayCovers(count, latency, factor);
    Later(l, latency, factor, nowMs, Delay(count, latency));
  }

  /** What happens either sends, when the backoff allows it, or leaves the backoff alone. */
  lemma NextSends(h: Happening, s: PeerState)
    ensures Acts(h, s) && !h.mode.Eager? ==>
              && h.nowMs >= s.nextSendTime
              && Next(h, s) == Sent(s.(ackPending := false), h.nowMs, h.latency)
    ensures !Acts(h, s) ==> Next(h, s).sendCount == s.sendCount && Next(h, s).nextSendTime == s.nextSendTime
  {
  }

  /** Every patient history keeps its sends apart, and its state says when the next may be. */
  lemma {:induction false} HistoryIsSpaced(history: seq<Happening>, l: nat, n: nat)
    requires n <= |history| && Patient(history, l)
    ensures Spaced(SendTimes(history, n), l) && Stands(StateAt(history, n), SendTimes(history, n), l)
  {
    if n > 0 {
      HistoryIsSpaced(history, l, n - 1);
      var h, s := history[n - 1], StateAt(history, n - 1);
      NextSends(h, s);
      if Acts(h, s) {
        SendKeepsSpacing(s.(ackPending := false), SendTimes(history, n - 1), l, h.nowMs, h.latency);
      }
    }
  }

  lemma Adds(first: nat, l: nat, units: nat, factor: nat, before: u64, time: u64)
    requires before >= Min(U64_MAX, first + l * units)
    requires time >= Min(U64_MAX, before + l * factor)
    ensures time >= Min(U64_MAX, first + l * (units + factor))
  {
    assert l * (units + factor) == l * units + l * factor;
  }

  /** Neighbouring sends so spaced put each send as far from the first as the backoffs between add up to. */
  lemma {:induction false} SpacingAddsUp(times: seq<u64>, l: nat, k: nat)
    requires Spaced(times, l) && k < |times|
    ensures times[k] >= Min(U64_MAX, times[0] + l * Units(k))
  {
    if k > 0 {
      SpacingAddsUp(times, l, k - 1);
      assert times[k] >= Earliest(times[k - 1], l, k);
      Adds(times[0], l, Units(k - 1), Pow2(Min(k - 1, MAX_BACKOFF_DOUBLINGS)), times[k - 1], times[k]);
    }
  }

  /**
   * Exponential backoff: each send comes no sooner after the one before than
   * l, doubled as often as it has been sent since the first, up to ten times;
   * and so the k-th later send comes no sooner than l * (2^k - 1) after the
   * first for the first eleven, and 1024 * l more for each after that, unless
   * the clock ends before.
   */
  lemma BackoffBound(history: seq<Happening>, l: nat, k: nat)
    requires Patient(history, l) && k < |SendTimes(history, |history|)|
    ensures var times := SendTimes(history, |history|);
            k > 0 ==> times[k] >= Min(U64_MAX, times[k - 1] + l * Pow2(Min(k - 1, MAX_BACKOFF_DOUBLINGS)))
    ensures var times := SendTimes(history, |history|);
            var units := if k <= 11 then Pow2(k) - 1 else 2047 + 1024 * (k - 11);
            times[k] >= Min(U64_MAX, times[0] + l * units)
  {
    HistoryIsSpaced(history, l, |history|);
    SpacingAddsUp(SendTimes(history, |history|), l, k);
    UnitsAre(k);
  }

  // When the next send may come, and when it does.

  /** How long a message rests after a send at this latency that was not the first `earlier` of its sends. */
  function Rest(earlier: u32, latency: u64): nat {
    var doubled := latency * Pow2(Min(earlier, 10));
    if doubled >= 1 then doubled else 1
  }

  lemma SentRests(s: PeerState, nowMs: u64, latency: u64)
    ensures var t := Sent(s, nowMs, latency);
            && t.nextSendTime == Min(U64_MAX, nowMs + Rest(s.sendCount, latency))
            && t.maxLatency == latency && !t.requested
            && t.seen == s.seen && t.ackPending == s.ackPending
            && t.sendCount == Min(U32_MAX, s.sendCount + 1)
  {
    var count := Increment(s.sendCount);
    assert Min(count - 1, 10) == Min(s.sendCount, 10);
  }

  /**
   * A message acted on is acted on again exactly when the peer has not seen it
   * and either the mode is Eager or its rest is over: no sooner, and no later.
   */
  lemma ActsAgainWhen(mode: Mode, nowMs: u64, latency: u64, e: Entry, later: u64)
    requires !ActionOf(mode, nowMs, e).Nothing?
    ensures !ActionOf(mode, later, e.(state := StateAfter(mode, nowMs, latency, e))).Nothing? <==>
              && !e.state.seen
              && (mode.Eager? || later >= Min(U64_MAX, nowMs + Rest(e.state.sendCount, latency)))
  {
    SentRests(e.state.(ackPending := false), nowMs, latency);
  }

  /** Nothing rests for ever: 1024 latencies are always enough, or as many milliseconds where there is none. */
  lemma RestIsBounded(earlier: u32, latency: u64)
    ensures Rest(earlier, latency) <= 1024 * (if latency >= 1 then latency else 1)
    ensures latency >= 1 ==> Rest(0, latency) == latency
  {
    FactorBound(Min(earlier, 10));
    assert Pow2(0) == 1;
    var factor := Pow2(Min(earlier, 10));
    assert 1024 * latency == factor * latency + (1024 - factor) * latency;
  }

  lemma RetriedInTime(mode: Mode, nowMs: u64, latency: u64, e: Entry, later: u64)
    requires !ActionOf(mode, nowMs, e).Nothing? && !e.state.seen
    requires later >= nowMs + 1024 * (if latency >= 1 then latency else 1)
    ensures !ActionOf(mode, later, e.(state := StateAfter(mode, nowMs, latency, e))).Nothing?
  {
    RestIsBounded(e.state.sendCount, latency);
    ActsAgainWhen(mode, nowMs, latency, e, later);
  }

  /** Every opportunity respects the backoff and has this latency. */
  predicate Steady(history: seq<Happening>, l: nat) {
    forall i :: 0 <= i < |history| && history[i].Opportunity? ==>
      !history[i].mode.Eager? && history[i].latency == l
  }

  /** Over transports of one latency the next send may come at the bound itself, and not a millisecond later. */
  lemma {:induction false} SteadyIsExact(history: seq<Happening>, l: nat, n: nat)
    requires n <= |history| && Steady(history, l) && l >= 1
    ensures var times := SendTimes(history, n);
            && StateAt(history, n).sendCount == Min(|times|, U32_MAX)
            && (times != [] ==> StateAt(history, n).nextSendTime == Earliest(times[|times| - 1], l, |times|))
  {
    if n > 0 {
      SteadyIsExact(history, l, n - 1);
      var h, s := history[n - 1], StateAt(history, n - 1);
      NextSends(h, s);
      if Acts(h, s) {
        var times := SendTimes(history, n - 1);
        SentRests(s.(ackPending := false), h.nowMs, h.latency);
        assert Min(s.sendCount, 10) == Min(|times|, 10);
        RestIsEarliest(h.nowMs, l, |times|);
      }
    }
  }

  lemma RestIsEarliest(nowMs: u64, l: nat, sends: nat)
    requires 1 <= l <= U64_MAX
    ensures Min(U64_MAX, nowMs + Rest(Min(sends, U32_MAX), l)) == Earliest(nowMs, l, sends + 1)
  {
    var factor := Pow2(Min(sends, 10));
    assert Min(Min(sends, U32_MAX), 10) == Min(sends, 10);
    assert l * factor >= 1;
  }
}
