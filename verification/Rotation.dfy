/** Time-based keys: initial derivation and forward rotation. */
module Rotation {
  import opened Words
  import opened BigEndian

  const MAX_ROTATIONS: u64 := 1024

  /** A key derivation: a key and the parts hashed with it. Nothing is known of it. */
  type Kdf = (Bytes32, seq<seq<byte>>) -> Bytes32

  datatype Role = A | B

  datatype Error =
    | TimestampTooEarly
    | PeriodInThePast(current: u64, requested: u64)
    | TooFarAhead(periods: u64)

  datatype Transport = Transport(id: seq<byte>, periodSeconds: u64)

  datatype DirectionKeys = DirectionKeys(tagKey: Bytes32, headerKey: Bytes32)

  datatype PeriodKeys = PeriodKeys(period: u64, outgoing: DirectionKeys, incoming: DirectionKeys)

  const A_TAG_KEY := Ascii("org.onestein.transport/A_TAG_KEY")
  const A_HEADER_KEY := Ascii("org.onestein.transport/A_HEADER_KEY")
  const B_TAG_KEY := Ascii("org.onestein.transport/B_TAG_KEY")
  const B_HEADER_KEY := Ascii("org.onestein.transport/B_HEADER_KEY")
  const ROTATE := Ascii("org.onestein.transport/ROTATE")

  /** D and L of the transports: a day of clock difference, and an hour or thirty days of latency. */
  const CLOCK_DIFFERENCE: nat := 24 * 3600
  const SHORT_LATENCY: nat := 3600
  const LONG_LATENCY: nat := 30 * 24 * 3600

  const TOR := Transport(Ascii("org.onestein.transport.tor"), 25 * 3600)
  const LAN := Transport(Ascii("org.onestein.transport.lan"), 25 * 3600)
  const BLUETOOTH := Transport(Ascii("org.onestein.transport.bluetooth"), 25 * 3600)
  const MEDIA := Transport(Ascii("org.onestein.transport.media"), 31 * 24 * 3600)
  const RELAY := Transport(Ascii("org.onestein.transport.relay"), 31 * 24 * 3600)

  /** The period a timestamp falls in. */
  function PeriodAt(transport: Transport, timestampMs: u64): u64
    requires transport.periodSeconds > 0
  {
    var seconds := timestampMs / 1000;
    var period: int := seconds / transport.periodSeconds;
    QuotientBound(seconds, transport.periodSeconds, period);
    period
  }

  lemma QuotientBound(n: int, d: int, q: int)
    requires n >= 0 && d > 0 && d * q <= n < d * q + d
    ensures 0 <= q <= n
  {
    assert q <= -1 ==> d * (q + 1) <= 0;
    assert q >= 1 ==> (d - 1) * q >= 0;
    assert (d - 1) * q == d * q - q;
  }

  function LabelledKeys(kdf: Kdf, root: Bytes32, tag: seq<byte>, header: seq<byte>, id: seq<byte>): DirectionKeys {
    DirectionKeys(kdf(root, [tag, id]), kdf(root, [header, id]))
  }

  /** The keys of the period before the one containing the timestamp. */
  function Initial(
    kdf: Kdf, root: Bytes32, transport: Transport, role: Role, timestampMs: u64): Result<PeriodKeys, Error>
    requires transport.periodSeconds > 0
  {
    if PeriodAt(transport, timestampMs) == 0 then Err(TimestampTooEarly)
    else
      var a := LabelledKeys(kdf, root, A_TAG_KEY, A_HEADER_KEY, transport.id);
      var b := LabelledKeys(kdf, root, B_TAG_KEY, B_HEADER_KEY, transport.id);
      Ok(PeriodKeys(PeriodAt(transport, timestampMs) - 1, if role.A? then a else b, if role.A? then b else a))
  }

  // One key, one direction, both directions, carried over a range of periods.

  function Derive(kdf: Kdf, key: Bytes32, period: u64): Bytes32 {
    kdf(key, [ROTATE, Digits(period, 8)])
  }

  /** A key derived once for each period from `first` to `last`. */
  function Fold(kdf: Kdf, key: Bytes32, first: nat, last: nat): Bytes32
    requires last <= U64_MAX
    decreases last + 1 - first
  {
    if first > last then key else Fold(kdf, Derive(kdf, key, first), first + 1, last)
  }

  function FoldDirection(kdf: Kdf, keys: DirectionKeys, first: nat, last: nat): DirectionKeys
    requires last <= U64_MAX
  {
    DirectionKeys(Fold(kdf, keys.tagKey, first, last), Fold(kdf, keys.headerKey, first, last))
  }

  /** The first period a rotation derives for: the next one, cut off at 2^64 - 1. */
  function FirstDerived(keys: PeriodKeys): u64 {
    SatAdd(keys.period, 1)
  }

  function Rotated(kdf: Kdf, keys: PeriodKeys, period: u64): Result<PeriodKeys, Error> {
    if period < keys.period then Err(PeriodInThePast(keys.period, period))
    else if period - keys.period > MAX_ROTATIONS then Err(TooFarAhead(period - keys.period))
    else Ok(PeriodKeys(
      period,
      FoldDirection(kdf, keys.outgoing, FirstDerived(keys), period),
      FoldDirection(kdf, keys.incoming, FirstDerived(keys), period)))
  }

  method RotateTo(kdf: Kdf, keys: PeriodKeys, period: u64) returns (r: Result<PeriodKeys, Error>)
    ensures r == Rotated(kdf, keys, period)
  {
    if period < keys.period {
      return Err(PeriodInThePast(keys.period, period));
    }
    var steps := period - keys.period;
    if steps > MAX_ROTATIONS {
      return Err(TooFarAhead(steps));
    }
    var next: nat := SatAdd(keys.period, 1);
    var outTag, outHeader := keys.outgoing.tagKey, keys.outgoing.headerKey;
    var inTag, inHeader := keys.incoming.tagKey, keys.incoming.headerKey;
    while next <= period
      invariant FirstDerived(keys) <= next
      invariant Fold(kdf, outTag, next, period) == Fold(kdf, keys.outgoing.tagKey, FirstDerived(keys), period)
      invariant Fold(kdf, outHeader, next, period) == Fold(kdf, keys.outgoing.headerKey, FirstDerived(keys), period)
      invariant Fold(kdf, inTag, next, period) == Fold(kdf, keys.incoming.tagKey, FirstDerived(keys), period)
      invariant Fold(kdf, inHeader, next, period) == Fold(kdf, keys.incoming.headerKey, FirstDerived(keys), period)
      decreases period + 1 - next
    {
      var counter := Digits(next, 8);
      outTag := kdf(outTag, [ROTATE, counter]);
      outHeader := kdf(outHeader, [ROTATE, counter]);
      inTag := kdf(inTag, [ROTATE, counter]);
      inHeader := kdf(inHeader, [ROTATE, counter]);
      next := next + 1;
    }
    r := Ok(PeriodKeys(period, DirectionKeys(outTag, outHeader), DirectionKeys(inTag, inHeader)));
  }

  lemma {:induction false} FoldJoins(kdf: Kdf, key: Bytes32, first: nat, middle: nat, last: nat)
    requires first <= middle + 1 && middle <= last <= U64_MAX
    ensures Fold(kdf, Fold(kdf, key, first, middle), middle + 1, last) == Fold(kdf, key, first, last)
    decreases middle + 1 - first
  {
    if first <= middle {
      FoldJoins(kdf, Derive(kdf, key, first), first + 1, middle, last);
    }
  }

  lemma DirectionJoins(kdf: Kdf, keys: DirectionKeys, first: nat, middle: nat, last: nat)
    requires first <= middle + 1 && middle <= last <= U64_MAX
    ensures FoldDirection(kdf, FoldDirection(kdf, keys, first, middle), middle + 1, last)
         == FoldDirection(kdf, keys, first, last)
  {
    FoldJoins(kdf, keys.tagKey, first, middle, last);
    FoldJoins(kdf, keys.headerKey, first, middle, last);
  }

  /** A chain of rotations, each to the next period listed, refused as soon as one is. */
  function Chain(kdf: Kdf, keys: PeriodKeys, hops: seq<u64>): Result<PeriodKeys, Error>
    decreases |hops|
  {
    if hops == [] then Ok(keys)
    else
      var next :- Rotated(kdf, keys, hops[0]);
      Chain(kdf, next, hops[1..])
  }

  function FoldKeys(kdf: Kdf, keys: PeriodKeys, last: u64): PeriodKeys {
    PeriodKeys(last, FoldDirection(kdf, keys.outgoing, keys.period + 1, last),
               FoldDirection(kdf, keys.incoming, keys.period + 1, last))
  }

  lemma KeysJoin(kdf: Kdf, keys: PeriodKeys, middle: u64, last: u64)
    requires keys.period <= middle <= last
    ensures FoldKeys(kdf, FoldKeys(kdf, keys, middle), last) == FoldKeys(kdf, keys, last)
  {
    DirectionJoins(kdf, keys.outgoing, keys.period + 1, middle, last);
    DirectionJoins(kdf, keys.incoming, keys.period + 1, middle, last);
  }

  /** No hop starts at 2^64 - 1, where there is no next period. */
  predicate StartsBelowTheEnd(keys: PeriodKeys, hops: seq<u64>) {
    hops == [] || (keys.period < U64_MAX && forall i :: 0 <= i < |hops| - 1 ==> hops[i] < U64_MAX)
  }

  /** Rotation composes: a chain of accepted hops is one derivation per period crossed, however it hops. */
  lemma {:induction false} ChainIsOneFold(kdf: Kdf, keys: PeriodKeys, hops: seq<u64>)
    requires StartsBelowTheEnd(keys, hops) && Chain(kdf, keys, hops).Ok?
    ensures var last := if hops == [] then keys.period else hops[|hops| - 1];
            last >= keys.period && Chain(kdf, keys, hops).value == FoldKeys(kdf, keys, last)
    decreases |hops|
  {
    if hops != [] {
      var next := FoldKeys(kdf, keys, hops[0]);
      assert Rotated(kdf, keys, hops[0]) == Ok(next);
      assert hops[1..] != [] ==> hops[0] < U64_MAX;
      ChainIsOneFold(kdf, next, hops[1..]);
      KeysJoin(kdf, keys, hops[0], hops[|hops| - 1]);
    }
  }

  /** A derivation that never gives back the key it was given. */
  function NextKey(key: Bytes32, parts: seq<seq<byte>>): Bytes32 {
    [(key[0] as int + 1) % 0x100] + key[1..]
  }

  /** Two keys derived for the last period. */
  function DerivedOnce(kdf: Kdf, keys: DirectionKeys): DirectionKeys {
    DirectionKeys(Derive(kdf, keys.tagKey, U64_MAX), Derive(kdf, keys.headerKey, U64_MAX))
  }

  /**
   * Rotating to the period the keys are in changes nothing, except in the very
   * last period, where every key is derived once more: a derivation that
   * changes keys shows the difference.
   */
  lemma RotateInPlace(kdf: Kdf, keys: PeriodKeys)
    ensures Rotated(kdf, keys, keys.period)
         == Ok(if keys.period < U64_MAX then keys
               else PeriodKeys(U64_MAX, DerivedOnce(kdf, keys.outgoing), DerivedOnce(kdf, keys.incoming)))
    ensures Rotated(NextKey, keys, keys.period) == Ok(keys) <==> keys.period < U64_MAX
  {
    if keys.period == U64_MAX {
      var key := keys.outgoing.tagKey;
      assert Fold(NextKey, key, U64_MAX, U64_MAX) == NextKey(key, [ROTATE, Digits(U64_MAX, 8)]);
      assert NextKey(key, [ROTATE, Digits(U64_MAX, 8)])[0] != key[0];
    }
  }

  /** Each side sends with the keys the other receives with. */
  predicate Mirrored(a: PeriodKeys, b: PeriodKeys) {
    a.period == b.period && a.outgoing == b.incoming && a.incoming == b.outgoing
  }

  /**
   * From one root key and one timestamp, A and B hold mirrored keys in every
   * period both reach, whatever hops each of them took to get there.
   */
  lemma BothSidesAgree(
    kdf: Kdf, root: Bytes32, transport: Transport, timestampMs: u64, hopsA: seq<u64>, hopsB: seq<u64>)
    requires transport.periodSeconds > 0 && PeriodAt(transport, timestampMs) > 0
    requires var a := Initial(kdf, root, transport, A, timestampMs).value;
             var b := Initial(kdf, root, transport, B, timestampMs).value;
             && StartsBelowTheEnd(a, hopsA) && StartsBelowTheEnd(b, hopsB)
             && Chain(kdf, a, hopsA).Ok? && Chain(kdf, b, hopsB).Ok?
             && Chain(kdf, a, hopsA).value.period == Chain(kdf, b, hopsB).value.period
    ensures var a := Initial(kdf, root, transport, A, timestampMs).value;
            var b := Initial(kdf, root, transport, B, timestampMs).value;
            Mirrored(a, b) && Mirrored(Chain(kdf, a, hopsA).value, Chain(kdf, b, hopsB).value)
  {
    ChainIsOneFold(kdf, Initial(kdf, root, transport, A, timestampMs).value, hopsA);
    ChainIsOneFold(kdf, Initial(kdf, root, transport, B, timestampMs).value, hopsB);
  }

  /**
   * With a period of D + L, a receiver whose clock is between D behind and
   * D + L ahead of the sender's finds a stream in the sender's period or in
   * one next to it.
   */
  lemma {:induction false} ReceivedInANeighbouringPeriod(
    transport: Transport, sentMs: u64, receivedMs: u64, d: nat, l: nat)
    requires transport.periodSeconds > 0 && transport.periodSeconds == d + l
    requires sentMs - d * 1000 <= receivedMs <= sentMs + (d + l) * 1000
    ensures PeriodAt(transport, sentMs) - 1 <= PeriodAt(transport, receivedMs) <= PeriodAt(transport, sentMs) + 1
  {
    var p := transport.periodSeconds;
    var s, r := sentMs / 1000, receivedMs / 1000;
    DivisionStep(s, r, p);
  }

  lemma DivisionStep(s: nat, r: nat, p: nat)
    requires p > 0 && s - p <= r <= s + p
    ensures s / p - 1 <= r / p <= s / p + 1
  {
    ModUnique(s + p, p, s / p + 1, s % p);
    ModUnique(r + p, p, r / p + 1, r % p);
    DivisionGrows(r, s + p, p);
    DivisionGrows(s, r + p, p);
  }

  lemma DivisionGrows(x: nat, y: nat, p: nat)
    requires p > 0 && x <= y
    ensures x / p <= y / p
  {
    assert (x / p) * p <= x && y < (y / p) * p + p;
    Cancel(x / p, y / p + 1, p);
  }

  lemma Cancel(a: nat, b: nat, p: nat)
    requires a * p < b * p
    ensures a < b
  {
    if a >= b {
      Monotone(b, a, p);
    }
  }

  lemma Monotone(x: nat, y: nat, p: nat)
    requires x <= y
    ensures x * p <= y * p
  {
  }

  const TRANSPORTS := [TOR, LAN, BLUETOOTH, MEDIA, RELAY]

  /** The latency each transport is listed for: an hour on a network, thirty days by media or relay. */
  function ListedLatency(transport: Transport): nat {
    if transport == MEDIA || transport == RELAY then LONG_LATENCY else SHORT_LATENCY
  }

  /** The table gives each transport the period its clocks and latency need. */
  lemma TableIsDPlusL()
    ensures forall t :: t in TRANSPORTS ==> t.periodSeconds == CLOCK_DIFFERENCE + ListedLatency(t)
  {
    assert TOR.periodSeconds != MEDIA.periodSeconds;
  }

  /**
   * Every transport in the table, between clocks no more than a day apart: a
   * stream that arrives within the listed latency is in the period it was sent
   * in or in one next to it.
   */
  lemma ListedTransportsReceiveNearby(transport: Transport, sentMs: u64, receivedMs: u64)
    requires transport in TRANSPORTS
    requires sentMs - CLOCK_DIFFERENCE * 1000 <= receivedMs
    requires receivedMs <= sentMs + (CLOCK_DIFFERENCE + ListedLatency(transport)) * 1000
    ensures transport.periodSeconds > 0
    ensures PeriodAt(transport, sentMs) - 1 <= PeriodAt(transport, receivedMs) <= PeriodAt(transport, sentMs) + 1
  {
    TableIsDPlusL();
    ReceivedInANeighbouringPeriod(transport, sentMs, receivedMs, CLOCK_DIFFERENCE, ListedLatency(transport));
  }

  // Which period, and which keys.

  /** Period p runs from p times its length to p + 1 times, in milliseconds since the epoch. */
  lemma PeriodContains(transport: Transport, timestampMs: u64)
    requires transport.periodSeconds > 0
    ensures var p, length := PeriodAt(transport, timestampMs), transport.periodSeconds * 1000;
            p * length <= timestampMs < (p + 1) * length
  {
    var d, seconds := transport.periodSeconds, timestampMs / 1000;
    var p := PeriodAt(transport, timestampMs);
    assert p * d <= seconds < p * d + d;
    assert p * (d * 1000) == (p * d) * 1000 && (p + 1) * (d * 1000) == (p * d + d) * 1000;
  }

  /** The first keys belong to the period before the timestamp's, and there are none in period zero. */
  lemma FirstKeys(kdf: Kdf, root: Bytes32, transport: Transport, role: Role, timestampMs: u64)
    requires transport.periodSeconds > 0
    ensures var first := Initial(kdf, root, transport, role, timestampMs);
            if timestampMs < transport.periodSeconds * 1000 then first == Err(TimestampTooEarly)
            else
              && first.Ok?
              && first.value.period == PeriodAt(transport, timestampMs) - 1
              && var a := DirectionKeys(kdf(root, [Ascii("org.onestein.transport/A_TAG_KEY"), transport.id]),
                                        kdf(root, [Ascii("org.onestein.transport/A_HEADER_KEY"), transport.id]));
                 var b := DirectionKeys(kdf(root, [Ascii("org.onestein.transport/B_TAG_KEY"), transport.id]),
                                        kdf(root, [Ascii("org.onestein.transport/B_HEADER_KEY"), transport.id]));
                 if role.A? then first.value.outgoing == a && first.value.incoming == b
                 else first.value.outgoing == b && first.value.incoming == a
  {
    PeriodContains(transport, timestampMs);
    var p, length := PeriodAt(transport, timestampMs), transport.periodSeconds * 1000;
    if p >= 1 {
      assert p * length >= length;
    }
  }

  /** A hop is taken exactly when it goes between 0 and 1024 periods forward; the refusal says which way it erred. */
  lemma HopIsAcceptedWhen(kdf: Kdf, keys: PeriodKeys, period: u64)
    ensures Rotated(kdf, keys, period).Ok? <==> keys.period <= period <= keys.period + 1024
    ensures period < keys.period ==> Rotated(kdf, keys, period) == Err(PeriodInThePast(keys.period, period))
    ensures period > keys.period + 1024 ==> Rotated(kdf, keys, period) == Err(TooFarAhead(period - keys.period))
  {
  }

  /** One period forward is one derivation of each of the four keys, from the label and the new period. */
  lemma OneHop(kdf: Kdf, keys: PeriodKeys)
    requires keys.period < U64_MAX
    ensures var parts := [Ascii("org.onestein.transport/ROTATE"), Digits(keys.period + 1, 8)];
            Rotated(kdf, keys, keys.period + 1) == Ok(PeriodKeys(
              keys.period + 1,
              DirectionKeys(kdf(keys.outgoing.tagKey, parts), kdf(keys.outgoing.headerKey, parts)),
              DirectionKeys(kdf(keys.incoming.tagKey, parts), kdf(keys.incoming.headerKey, parts))))
  {
    OneFold(kdf, keys.outgoing.tagKey, keys.period + 1);
    OneFold(kdf, keys.outgoing.headerKey, keys.period + 1);
    OneFold(kdf, keys.incoming.tagKey, keys.period + 1);
    OneFold(kdf, keys.incoming.headerKey, keys.period + 1);
  }

  lemma OneFold(kdf: Kdf, key: Bytes32, period: u64)
    ensures Fold(kdf, key, period, period) == kdf(key, [Ascii("org.onestein.transport/ROTATE"), Digits(period, 8)])
  {
  }
}
