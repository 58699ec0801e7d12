/** What a device remembers about one message and one peer, and the backoff of sending it. */
module Peer {
  import opened Words

  const MAX_BACKOFF_DOUBLINGS: nat := 10

  datatype PeerState = PeerState(
    seen: bool, ackPending: bool, requested: bool, sendCount: u32, nextSendTime: u64, maxLatency: u64)

  const NEW := PeerState(false, false, false, 0, 0, 0)

  function Increment(count: u32): u32 {
    if count < U32_MAX then count + 1 else U32_MAX
  }

  /** The wait after a send, given how often the message has been sent by then. */
  function Delay(sendCount: u32, latency: u64): (delay: u64)
    requires sendCount >= 1
    ensures delay >= 1
  {
    FactorBound(Min(sendCount - 1, MAX_BACKOFF_DOUBLINGS));
    var product := SatMul(latency, Pow2(Min(sendCount - 1, MAX_BACKOFF_DOUBLINGS)));
    if product >= 1 then product else 1
  }

  /** The wait doubles with each of the first ten sends more, as far as the clock goes, and then stays. */
  lemma DelayDoubles(sendCount: u32, latency: u64)
    requires 1 <= sendCount < U32_MAX && latency >= 1
    ensures Delay(1, latency) == latency
    ensures Delay(sendCount + 1, latency)
         == if sendCount <= MAX_BACKOFF_DOUBLINGS then SatMul(2, Delay(sendCount, latency))
            else Delay(sendCount, latency)
  {
    var factor := Pow2(Min(sendCount - 1, MAX_BACKOFF_DOUBLINGS));
    FactorBound(Min(sendCount - 1, MAX_BACKOFF_DOUBLINGS));
    assert Pow2(0) == 1;
    if sendCount <= MAX_BACKOFF_DOUBLINGS {
      FactorBound(sendCount);
      assert Pow2(sendCount) == 2 * factor;
      Doubled(latency, factor);
    }
  }

  lemma Doubled(latency: u64, factor: u64)
    requires latency >= 1 && 1 <= factor && 2 * factor <= U64_MAX
    ensures latency * factor >= 1
    ensures SatMul(latency, 2 * factor) == SatMul(2, SatMul(latency, factor))
  {
    assert latency * (2 * factor) == 2 * (latency * factor);
  }

  lemma FactorBound(n: nat)
    requires n <= MAX_BACKOFF_DOUBLINGS
    ensures Pow2(n) <= 1024
  {
    assert Pow2(10) == 1024;
    Grows(n, 10);
  }

  lemma {:induction false} Grows(m: nat, n: nat)
    requires m <= n
    ensures Pow2(m) <= Pow2(n)
  {
    if m < n {
      Grows(m, n - 1);
    }
  }

  function Sent(s: PeerState, nowMs: u64, latency: u64): PeerState {
    var count := Increment(s.sendCount);
    s.(sendCount := count, maxLatency := latency, requested := false,
       nextSendTime := SatAdd(nowMs, Delay(count, latency)))
  }

  class PeerMessageState {
    var seen: bool
    var ackPending: bool
    var requested: bool
    var sendCount: u32
    var nextSendTime: u64
    var maxLatency: u64

    function Now(): PeerState
      reads this
    {
      PeerState(seen, ackPending, requested, sendCount, nextSendTime, maxLatency)
    }

    constructor ()
      ensures Now() == NEW
    {
      seen, ackPending, requested := false, false, false;
      sendCount, nextSendTime, maxLatency := 0, 0, 0;
    }

    predicate ReadyToSend(nowMs: u64)
      reads this
    {
      nowMs >= nextSendTime
    }

    method OnSent(nowMs: u64, latency: u64)
      modifies this
      ensures Now() == Sent(old(Now()), nowMs, latency)
    {
      sendCount := if sendCount < U32_MAX then sendCount + 1 else U32_MAX;
      maxLatency := latency;
      requested := false;
      var doublings := if sendCount - 1 < MAX_BACKOFF_DOUBLINGS then sendCount - 1 else MAX_BACKOFF_DOUBLINGS;
      FactorBound(doublings);
      var factor: u64 := Pow2(doublings);
      var delay := SatMul(latency, factor);
      if delay < 1 {
        delay := 1;
      }
      nextSendTime := SatAdd(nowMs, delay);
    }

    method OnPeerAcked()
      modifies this
      ensures Now() == old(Now()).(seen := true)
    {
      seen := true;
    }

    method OnPeerOffered()
      modifies this
      ensures Now() == old(Now()).(seen := true, ackPending := true)
    {
      seen := true;
      ackPending := true;
    }

    method OnAcknowledged()
      modifies this
      ensures Now() == old(Now()).(ackPending := false)
    {
      ackPending := false;
    }

    method OnPeerRequested()
      modifies this
      ensures Now() == old(Now()).(requested := true)
    {
      requested := true;
    }
  }
}
