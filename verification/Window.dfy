/** The reordering window: a sliding bitmask that refines a set of stream numbers. */
module Window {
  import opened Words

  const WINDOW_LEN: u64 := 32
  const TOP_HALF: u32 := 0x1_0000

  datatype WindowError =
    | AlreadyPassed(number: u64, base: u64)
    | OutsideWindow(number: u64, limit: u64)
    | AlreadySeen(number: u64)
    | CounterExhausted

  /** A set of stream numbers not yet cut off at 2^64. */
  type Numbers = set<nat>

  datatype State = State(base: u64, seen: u32)

  const FRESH := State(0, 0)

  // Bits of a mask. Setting an unset bit is addition, shifting right is halving.

  predicate Bit(mask: nat, k: nat) {
    if k == 0 then mask % 2 == 1 else Bit(mask / 2, k - 1)
  }

  lemma {:induction false} BitOfSum(mask: nat, k: nat, i: nat)
    requires !Bit(mask, k)
    ensures Bit(mask + Pow2(k), i) <==> Bit(mask, i) || i == k
  {
    if k > 0 {
      assert (mask + Pow2(k)) / 2 == mask / 2 + Pow2(k - 1) && (mask + Pow2(k)) % 2 == mask % 2;
      if i > 0 {
        BitOfSum(mask / 2, k - 1, i - 1);
      }
    }
  }

  lemma {:induction false} SumFits(mask: nat, k: nat, width: nat)
    requires mask < Pow2(width) && k < width && !Bit(mask, k)
    ensures mask + Pow2(k) < Pow2(width)
  {
    var half, p := mask / 2, Pow2(width - 1);
    assert Pow2(width) == 2 * p && half < p;
    if k == 0 {
      assert mask == 2 * half;
    } else {
      SumFits(half, k - 1, width - 1);
      assert Pow2(k) == 2 * Pow2(k - 1);
    }
  }

  lemma {:induction false} HighBit(mask: nat, low: nat, width: nat)
    requires Pow2(low) <= mask < Pow2(width)
    ensures exists k :: low <= k < width && Bit(mask, k)
  {
    if low == 0 && mask == 1 {
      assert Bit(mask, 0);
    } else {
      HighBit(mask / 2, if low == 0 then 0 else low - 1, width - 1);
      var k :| (if low == 0 then 0 else low - 1) <= k < width - 1 && Bit(mask / 2, k);
      assert Bit(mask, k + 1);
    }
  }

  lemma {:induction false} NoHighBit(mask: nat, width: nat, k: nat)
    requires mask < Pow2(width) && k >= width
    ensures !Bit(mask, k)
  {
    if width == 0 {
      if k > 0 {
        NoHighBit(0, 0, k - 1);
      }
    } else {
      NoHighBit(mask / 2, width - 1, k - 1);
    }
  }

  lemma {:induction false} BitsDetermine(a: nat, b: nat, width: nat)
    requires a < Pow2(width) && b < Pow2(width)
    requires forall i :: 0 <= i < width ==> (Bit(a, i) <==> Bit(b, i))
    ensures a == b
  {
    if width > 0 {
      assert Bit(a, 0) <==> Bit(b, 0);
      forall i | 0 <= i < width - 1 ensures Bit(a / 2, i) <==> Bit(b / 2, i) {
        assert Bit(a, i + 1) <==> Bit(b, i + 1);
      }
      BitsDetermine(a / 2, b / 2, width - 1);
    }
  }

  lemma Pow2Values()
    ensures Pow2(16) == TOP_HALF && Pow2(32) == U32_MAX + 1
  {
    assert Pow2(8) == 256;
    assert Pow2(12) == 16 * Pow2(8);
    assert Pow2(16) == 16 * Pow2(12);
    assert Pow2(20) == 16 * Pow2(16);
    assert Pow2(24) == 16 * Pow2(20);
    assert Pow2(28) == 16 * Pow2(24);
  }

  // What a window says about a set of numbers.

  /** Some marked number is 16 or more above this one, in the top half of a window at it. */
  ghost predicate Overtaken(marked: Numbers, m: nat) {
    exists x :: x in marked && x >= m + 16
  }

  /** Sliding from `from` past the marked numbers stops at `to`. */
  ghost predicate Slid(from: nat, marked: Numbers, to: nat) {
    && from <= to
    && to !in marked
    && (forall x :: x in marked ==> x < to + 16)
    && (forall m :: from <= m < to ==> m in marked || Overtaken(marked, m))
  }

  /** A mask holds the marked numbers, the lowest bit standing for `base`. */
  ghost predicate Holds(base: nat, seen: nat, marked: Numbers) {
    forall i :: 0 <= i < 32 ==> (Bit(seen, i) <==> base + i in marked)
  }

  lemma CoveredBit(base: nat, seen: nat, marked: Numbers, n: nat)
    requires Holds(base, seen, marked) && base <= n < base + 32
    ensures Bit(seen, n - base) <==> n in marked
  {
    var i := n - base;
    assert Bit(seen, i) <==> base + i in marked;
  }

  /**
   * The window stands where sliding from `from` past the marked numbers stops,
   * except that `base` does not go beyond 2^64 - 1.
   */
  ghost predicate Settled(from: nat, marked: Numbers, s: State) {
    exists to :: Slid(from, marked, to) && s.base == Min(to, U64_MAX) && Holds(to, s.seen, marked)
  }

  ghost function Marked(s: State): Numbers {
    set i | 0 <= i < 32 && Bit(s.seen, i) :: s.base + i
  }

  function Verdict(s: State, n: u64): Result<(), WindowError> {
    if n < s.base then Err(AlreadyPassed(n, s.base))
    else if n - s.base >= WINDOW_LEN then Err(OutsideWindow(n, SatAdd(s.base, WINDOW_LEN)))
    else if Bit(s.seen, n - s.base) then Err(AlreadySeen(n))
    else Ok(())
  }

  /** The window covers a number and has it marked. */
  predicate Seen(s: State, n: u64) {
    s.base <= n < s.base + WINDOW_LEN && Bit(s.seen, n - s.base)
  }

  /** One number offered: a refusal changes nothing, an acceptance marks it and slides. */
  ghost predicate Step(s: State, n: u64, t: State) {
    if Verdict(s, n).Ok? then Settled(s.base, Marked(s) + {n}, t) else t == s
  }

  class Window {
    var base: u64
    var seen: u32

    function Now(): State
      reads this
    {
      State(base, seen)
    }

    constructor ()
      ensures Now() == FRESH
    {
      base, seen := 0, 0;
    }

    constructor Restore(base: u64, seen: u32)
      ensures Now() == State(base, seen)
    {
      this.base, this.seen := base, seen;
    }

    /** The bit position of a stream number, if the window covers it. */
    function Offset(number: u64): Option<nat>
      reads this
    {
      if number < base then Option.None
      else if number - base >= WINDOW_LEN then Option.None
      else Some(number - base)
    }

    predicate IsSeen(number: u64)
      reads this
      ensures IsSeen(number) == Seen(Now(), number)
    {
      Offset(number).Some? && Bit(seen, Offset(number).value)
    }

    method Slide()
      modifies this
      ensures base == Min(old(base) + 1, U64_MAX) && seen == old(seen) / 2
    {
      base := SatAdd(base, 1);
      seen := seen / 2;
    }

    method MarkSeen(number: u64) returns (r: Result<(), WindowError>)
      modifies this
      ensures r == Verdict(old(Now()), number)
      ensures Step(old(Now()), number, Now())
    {
      if number < base {
        return Err(AlreadyPassed(number, base));
      }
      var limit := SatAdd(base, WINDOW_LEN);
      var offset := Offset(number);
      if offset.None? {
        return Err(OutsideWindow(number, limit));
      }
      if Bit(seen, offset.value) {
        return Err(AlreadySeen(number));
      }
      Pow2Values();
      SumFits(seen, offset.value, 32);
      ghost var from: nat, marked: Numbers := base, Marked(Now()) + {number};
      ghost var to: nat := from;
      MarkedHolds(Now(), number);
      seen := seen + Pow2(offset.value);

      // Until the top half is unseen.
      while seen >= TOP_HALF
        invariant from <= to && base == Min(to, U64_MAX)
        invariant Holds(to, seen, marked)
        invariant forall x :: x in marked ==> x < to + 32
        invariant forall m :: from <= m < to ==> m in marked || Overtaken(marked, m)
        decreases seen
      {
        HighBit(seen, 16, 32);
        assert Overtaken(marked, to) by {
          var k :| 16 <= k < 32 && Bit(seen, k);
          assert to + k in marked;
        }
        SlideHolds(to, seen, marked);
        Slide();
        to := to + 1;
      }
      TopHalfUnseen(to, seen, marked);

      // Until the lowest number is unseen.
      while seen % 2 != 0
        invariant from <= to && base == Min(to, U64_MAX)
        invariant Holds(to, seen, marked)
        invariant forall x :: x in marked ==> x < to + 16
        invariant forall m :: from <= m < to ==> m in marked || Overtaken(marked, m)
        decreases seen
      {
        assert Bit(seen, 0);
        SlideHolds(to, seen, marked);
        Slide();
        to := to + 1;
      }
      assert !Bit(seen, 0);
      assert Slid(from, marked, to);
      r := Ok(());
    }
  }

  lemma MarkedHolds(s: State, n: nat)
    requires s.base <= n < s.base + 32 && !Bit(s.seen, n - s.base)
    ensures Holds(s.base, s.seen + Pow2(n - s.base), Marked(s) + {n})
    ensures forall x :: x in Marked(s) + {n} ==> x < s.base + 32
  {
    var mask := s.seen + Pow2(n - s.base);
    forall i | 0 <= i < 32 ensures Bit(mask, i) <==> s.base + i in Marked(s) + {n} {
      BitOfSum(s.seen, n - s.base, i);
    }
  }

  lemma SlideHolds(to: nat, seen: u32, marked: Numbers)
    requires Holds(to, seen, marked) && forall x :: x in marked ==> x < to + 32
    ensures Holds(to + 1, seen / 2, marked)
  {
    Pow2Values();
    forall i | 0 <= i < 32 ensures Bit(seen / 2, i) <==> to + 1 + i in marked {
      assert Bit(seen, i + 1) <==> Bit(seen / 2, i);
      if i == 31 {
        NoHighBit(seen, 32, 32);
      } else {
        assert Bit(seen, i + 1) <==> to + (i + 1) in marked;
      }
    }
  }

  lemma TopHalfUnseen(to: nat, seen: u32, marked: Numbers)
    requires Holds(to, seen, marked) && seen < TOP_HALF
    requires forall x :: x in marked ==> x < to + 32
    ensures forall x :: x in marked ==> x < to + 16
  {
    Pow2Values();
    forall x | x in marked ensures x < to + 16 {
      if x >= to + 16 {
        assert Bit(seen, x - to) <==> to + (x - to) in marked;
        NoHighBit(seen, 16, x - to);
      }
    }
  }
}
