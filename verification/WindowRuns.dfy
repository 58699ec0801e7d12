/** What reordering windows do over whole runs, and with the sender's counter. */
module WindowRuns {
  import opened Words
  import opened Window

  // The window in closed form.

  /** The number the window would stand at if nothing stopped it at 2^64 - 1. */
  ghost predicate Front(accepted: Numbers, to: nat) {
    Slid(0, accepted, to)
  }

  ghost predicate AllU64(numbers: Numbers) {
    forall x :: x in numbers ==> x <= U64_MAX
  }

  /** Where the window of a set stands, before `base` is cut off. */
  ghost function FrontOf(from: nat, marked: Numbers, s: State): (to: nat)
    requires Settled(from, marked, s)
    ensures Slid(from, marked, to) && s.base == Min(to, U64_MAX) && Holds(to, s.seen, marked)
  {
    var to :| Slid(from, marked, to) && s.base == Min(to, U64_MAX) && Holds(to, s.seen, marked);
    to
  }

  lemma FrontIsUnique(from: nat, marked: Numbers, a: nat, b: nat)
    requires Slid(from, marked, a) && Slid(from, marked, b)
    ensures a == b
  {
    // The lesser of two fronts would have to be marked or far behind.
  }

  /** The front is the least unaccepted number at or above the largest accepted one less 15. */
  lemma FrontIsLeast(accepted: Numbers, largest: nat, to: nat)
    requires largest in accepted && forall x :: x in accepted ==> x <= largest
    ensures Front(accepted, to) <==>
            && to !in accepted && to + 15 >= largest
            && forall m: nat :: m !in accepted && m + 15 >= largest ==> to <= m
  {
    if Front(accepted, to) {
      forall m: nat | m !in accepted && m + 15 >= largest ensures to <= m {
        assert !Overtaken(accepted, m);
        assert to <= m || m in accepted || Overtaken(accepted, m);
      }
    }
    if && to !in accepted && to + 15 >= largest
       && forall m: nat :: m !in accepted && m + 15 >= largest ==> to <= m {
      forall m: nat | 0 <= m < to ensures m in accepted || Overtaken(accepted, m) {
        if m !in accepted {
          assert largest in accepted && largest >= m + 16;
        }
      }
    }
  }

  /** A settled window depends on the set accepted, and on nothing else. */
  lemma SettledIsUnique(from: nat, marked: Numbers, s: State, t: State)
    requires Settled(from, marked, s) && Settled(from, marked, t)
    ensures s == t
  {
    FrontIsUnique(from, marked, FrontOf(from, marked, s), FrontOf(from, marked, t));
    Pow2Values();
    BitsDetermine(s.seen, t.seen, 32);
  }

  /**
   * Which numbers a window that has accepted a set accepts next: those it has
   * not accepted, from the front on for 32 numbers, and, once the front has
   * reached 2^64, the last number again and again.
   */
  ghost predicate Accepts(accepted: Numbers, to: nat, n: u64) {
    (n !in accepted && to <= n < to + 32) || (n == U64_MAX && to == TWO_64)
  }

  lemma VerdictOf(accepted: Numbers, to: nat, s: State, n: u64)
    requires AllU64(accepted) && Front(accepted, to)
    requires s.base == Min(to, U64_MAX) && Holds(to, s.seen, accepted)
    ensures to <= TWO_64
    ensures Verdict(s, n).Ok? <==> Accepts(accepted, to, n)
  {
    if to > 0 {
      assert to - 1 in accepted || Overtaken(accepted, to - 1);
    }
    if to == TWO_64 {
      CoveredBit(to, s.seen, accepted, to);
    } else if s.base <= n < s.base + 32 {
      CoveredBit(to, s.seen, accepted, n);
    }
  }

  /** Accepting a number keeps the closed form, for the set with that number in it. */
  lemma StepKeepsForm(accepted: Numbers, s: State, n: u64, t: State)
    requires AllU64(accepted) && Settled(0, accepted, s) && Step(s, n, t)
    ensures Settled(0, if Verdict(s, n).Ok? then accepted + {n} else accepted, t)
  {
    var to := FrontOf(0, accepted, s);
    VerdictOf(accepted, to, s, n);
    if Verdict(s, n).Ok? {
      var next := FrontOf(s.base, Marked(s) + {n}, t);
      if to == TWO_64 {
        LastWasAccepted(accepted);
        assert accepted + {n} == accepted;
        StuckAtTheEnd(accepted, s, t, next);
      } else {
        StepBelowTheEnd(accepted, to, s, n, t, next);
      }
    }
  }

  lemma StepBelowTheEnd(accepted: Numbers, to: nat, s: State, n: u64, t: State, next: nat)
    requires Front(accepted, to) && s.base == to <= n && Holds(to, s.seen, accepted)
    requires Slid(to, Marked(s) + {n}, next)
    requires t.base == Min(next, U64_MAX) && Holds(next, t.seen, Marked(s) + {n})
    ensures Settled(0, accepted + {n}, t)
  {
    MarkedIsAccepted(accepted, to, s);
    StepSlides(accepted, to, s, n, next);
    SameBits(next, t.seen, Marked(s) + {n}, accepted + {n});
  }

  lemma SameBits(to: nat, seen: nat, a: Numbers, b: Numbers)
    requires Holds(to, seen, a) && forall y :: y >= to ==> (y in a <==> y in b)
    ensures Holds(to, seen, b)
  {
    forall i | 0 <= i < 32 ensures Bit(seen, i) <==> to + i in b {
      assert Bit(seen, i) <==> to + i in a;
      var y := to + i;
      assert y in a <==> y in b;
    }
  }

  lemma LastWasAccepted(accepted: Numbers)
    requires AllU64(accepted) && Front(accepted, TWO_64)
    ensures U64_MAX in accepted
  {
    assert U64_MAX in accepted || Overtaken(accepted, U64_MAX);
  }

  /** At the very end the saturated base marks the last number, slides past it, and is back where it was. */
  lemma StuckAtTheEnd(accepted: Numbers, s: State, t: State, next: nat)
    requires AllU64(accepted) && Front(accepted, TWO_64)
    requires s.base == U64_MAX && Holds(TWO_64, s.seen, accepted)
    requires Slid(s.base, Marked(s) + {U64_MAX}, next)
    requires t.base == Min(next, U64_MAX) && Holds(next, t.seen, Marked(s) + {U64_MAX})
    ensures Settled(0, accepted, t)
  {
    forall i | 0 <= i < 32 ensures !Bit(s.seen, i) {
      assert Bit(s.seen, i) <==> TWO_64 + i in accepted;
    }
    var marked: Numbers := {U64_MAX};
    assert Marked(s) + {U64_MAX} == marked;
    SlidPast(U64_MAX);
    FrontIsUnique(U64_MAX, marked, next, TWO_64);
    SameBits(TWO_64, t.seen, marked, accepted);
  }

  lemma SlidPast(n: nat)
    ensures Slid(n, {n}, n + 1)
  {
    var marked: Numbers := {n};
    assert forall m: nat :: n <= m < n + 1 ==> m in marked;
  }

  /** The bits of the window are the accepted numbers it has not yet passed. */
  lemma MarkedIsAccepted(accepted: Numbers, to: nat, s: State)
    requires Front(accepted, to) && s.base == to && Holds(to, s.seen, accepted)
    ensures forall x :: x in Marked(s) <==> x in accepted && x >= to
  {
    forall x ensures x in Marked(s) <==> x in accepted && x >= to {
      if x in accepted && x >= to {
        CoveredBit(to, s.seen, accepted, x);
      }
    }
  }

  lemma StepSlides(accepted: Numbers, to: nat, s: State, n: u64, next: nat)
    requires Front(accepted, to) && s.base == to <= n
    requires forall x :: x in Marked(s) <==> x in accepted && x >= to
    requires Slid(to, Marked(s) + {n}, next)
    ensures Front(accepted + {n}, next)
    ensures forall y :: y >= next ==> (y in Marked(s) + {n} <==> y in accepted + {n})
  {
    var marked, more := Marked(s) + {n}, accepted + {n};
    forall x | x in more ensures x < next + 16 {
      if x in accepted && x < to {
        assert x < next;
      } else {
        assert x in marked;
      }
    }
    forall m: nat | 0 <= m < next ensures m in more || Overtaken(more, m) {
      if m < to {
        if m !in accepted {
          var x :| x in accepted && x >= m + 16;
          assert x in more;
        }
      } else if m !in marked {
        var x :| x in marked && x >= m + 16;
        assert x in more;
      }
    }
  }

  // Runs of one window.

  /** A run of the window from fresh: what was offered, and the state before each offer and after the last. */
  datatype Run = Run(offered: seq<u64>, states: seq<State>)

  ghost predicate IsRun(r: Run) {
    && |r.states| == |r.offered| + 1
    && r.states[0] == FRESH
    && forall i :: 0 <= i < |r.offered| ==> Step(r.states[i], r.offered[i], r.states[i + 1])
  }

  predicate AcceptedAt(r: Run, i: nat)
    requires i < |r.offered| < |r.states|
  {
    Verdict(r.states[i], r.offered[i]).Ok?
  }

  /** The numbers accepted before offer `k`. */
  function Accepted(r: Run, k: nat): Numbers
    requires k <= |r.offered| < |r.states|
  {
    if k == 0 then {}
    else if AcceptedAt(r, k - 1) then Accepted(r, k - 1) + {r.offered[k - 1]}
    else Accepted(r, k - 1)
  }

  lemma {:induction false} AcceptedMembers(r: Run, k: nat, x: u64)
    requires k <= |r.offered| < |r.states|
    ensures x in Accepted(r, k) <==> exists i :: 0 <= i < k && r.offered[i] == x && AcceptedAt(r, i)
  {
    if k > 0 {
      AcceptedMembers(r, k - 1, x);
    }
  }

  /**
   * In every run over any stream numbers, the window is the closed form of the
   * set of numbers it has accepted.
   */
  lemma {:induction false} ClosedForm(r: Run, k: nat)
    requires IsRun(r) && k <= |r.offered|
    ensures AllU64(Accepted(r, k)) && Settled(0, Accepted(r, k), r.states[k])
  {
    if k == 0 {
      assert Slid(0, {}, 0);
      forall i | 0 <= i < 32 ensures Bit(0, i) <==> 0 + i in {} {
        NoHighBit(0, 0, i);
      }
      var none: Numbers := {};
      assert Holds(0, 0, none);
    } else {
      ClosedForm(r, k - 1);
      StepKeepsForm(Accepted(r, k - 1), r.states[k - 1], r.offered[k - 1], r.states[k]);
    }
  }

  /** A number is reported as seen while the window still covers it, and at the very end no longer. */
  lemma SeenIsAccepted(r: Run, k: nat, n: u64)
    requires IsRun(r) && k <= |r.offered|
    ensures Seen(r.states[k], n)
       <==> n in Accepted(r, k) && r.states[k].base <= n && r.states[k].base < U64_MAX
  {
    ClosedForm(r, k);
    var accepted, s := Accepted(r, k), r.states[k];
    var to := FrontOf(0, accepted, s);
    VerdictOf(accepted, to, s, n);
    if to == TWO_64 {
      CoveredBit(to, s.seen, accepted, to);
    } else if s.base <= n < s.base + 32 {
      CoveredBit(to, s.seen, accepted, n);
    }
  }

  /** Two runs that accepted the same numbers, in whatever order, are in the same state. */
  lemma OrderDoesNotMatter(r: Run, q: Run)
    requires IsRun(r) && IsRun(q)
    requires Accepted(r, |r.offered|) == Accepted(q, |q.offered|)
    ensures r.states[|r.offered|] == q.states[|q.offered|]
  {
    ClosedForm(r, |r.offered|);
    ClosedForm(q, |q.offered|);
    SettledIsUnique(0, Accepted(r, |r.offered|), r.states[|r.offered|], q.states[|q.offered|]);
  }

  /** A number already accepted is accepted again exactly when it is the last one and the base stands on it. */
  lemma ReplayOnlyAtTheEnd(r: Run, i: nat, k: nat)
    requires IsRun(r) && i < k < |r.offered|
    requires AcceptedAt(r, i) && r.offered[k] == r.offered[i]
    ensures AcceptedAt(r, k) <==> r.offered[k] == U64_MAX && r.states[k].base == U64_MAX
  {
    ClosedForm(r, k);
    var accepted, s, n := Accepted(r, k), r.states[k], r.offered[k];
    var to := FrontOf(0, accepted, s);
    VerdictOf(accepted, to, s, n);
    AcceptedMembers(r, k, n);
  }

  /** The saturating slide: the last number, marked where the base stands on it, leaves the window as it was. */
  lemma LastNumberIsAcceptedAgain()
    ensures Verdict(State(U64_MAX, 0), U64_MAX).Ok? && Step(State(U64_MAX, 0), U64_MAX, State(U64_MAX, 0))
  {
    forall i: nat | i < 32 ensures !Bit(0, i) {
      NoHighBit(0, 0, i);
    }
    var marked: Numbers := {U64_MAX};
    assert Marked(State(U64_MAX, 0)) + {U64_MAX} == marked;
    SlidPast(U64_MAX);
    assert Holds(TWO_64, 0, marked);
  }

  lemma PassedMeansOvertaken(accepted: Numbers, s: State, n: u64)
    requires AllU64(accepted) && Settled(0, accepted, s) && n !in accepted
    ensures n < s.base <==> Overtaken(accepted, n)
  {
    var to := FrontOf(0, accepted, s);
    VerdictOf(accepted, to, s, n);
    if to == TWO_64 {
      LastWasAccepted(accepted);
    }
    if n < to {
      assert n in accepted || Overtaken(accepted, n);
    }
  }

  /**
   * An unseen number is refused as already passed exactly when some number 16
   * or more above it has been accepted.
   */
  lemma PassedOnlyByTheTopHalf(r: Run, k: nat)
    requires IsRun(r) && k < |r.offered|
    requires r.offered[k] !in Accepted(r, k)
    ensures Verdict(r.states[k], r.offered[k]) == Err(AlreadyPassed(r.offered[k], r.states[k].base))
       <==> Overtaken(Accepted(r, k), r.offered[k])
  {
    ClosedForm(r, k);
    PassedMeansOvertaken(Accepted(r, k), r.states[k], r.offered[k]);
  }

  // With the sender's counter, over a channel that reorders and repeats.

  predicate First(offered: seq<u64>, i: nat)
    requires i < |offered|
  {
    offered[i] !in offered[..i]
  }

  /**
   * The reordering a window of 32 absorbs: a number first arrives after every
   * number 32 or more below it, and before any number 16 or more above it.
   */
  ghost predicate MildlyReordered(offered: seq<u64>) {
    forall i {:trigger First(offered, i)} :: 0 <= i < |offered| && First(offered, i) ==>
      Timely(Arrived(offered, i), offered[i])
  }

  function Arrived(offered: seq<u64>, k: nat): Numbers
    requires k <= |offered|
  {
    if k == 0 then {} else Arrived(offered, k - 1) + {offered[k - 1]}
  }

  ghost predicate Timely(arrived: Numbers, n: u64) {
    && (forall m: nat :: m !in arrived ==> n < m + 32)
    && !Overtaken(arrived, n)
  }

  lemma TimelyIsAccepted(accepted: Numbers, s: State, n: u64)
    requires AllU64(accepted) && Settled(0, accepted, s) && n !in accepted && Timely(accepted, n)
    ensures Verdict(s, n).Ok?
  {
    var to := FrontOf(0, accepted, s);
    VerdictOf(accepted, to, s, n);
    assert to <= n;
    assert to !in accepted;
  }

  lemma {:induction false} ArrivedMembers(offered: seq<u64>, k: nat, n: u64)
    requires k <= |offered|
    ensures n in Arrived(offered, k) <==> n in offered[..k]
  {
    if k > 0 {
      ArrivedMembers(offered, k - 1, n);
      assert offered[..k] == offered[..k - 1] + [offered[k - 1]];
    }
  }

  lemma {:induction false} EverythingArrivedIsAccepted(r: Run, k: nat)
    requires IsRun(r) && MildlyReordered(r.offered) && k <= |r.offered|
    ensures Accepted(r, k) == Arrived(r.offered, k)
  {
    if k > 0 {
      EverythingArrivedIsAccepted(r, k - 1);
      ArrivedMembers(r.offered, k - 1, r.offered[k - 1]);
      if First(r.offered, k - 1) {
        FirstIsAccepted(r, k - 1);
      } else {
        assert r.offered[k - 1] in Arrived(r.offered, k - 1);
        assert Arrived(r.offered, k) == Arrived(r.offered, k - 1);
      }
    }
  }

  lemma FirstIsAccepted(r: Run, k: nat)
    requires IsRun(r) && MildlyReordered(r.offered) && k < |r.offered|
    requires Accepted(r, k) == Arrived(r.offered, k) && First(r.offered, k)
    ensures AcceptedAt(r, k)
  {
    ClosedForm(r, k);
    ArrivedMembers(r.offered, k, r.offered[k]);
    TimelyIsAccepted(Accepted(r, k), r.states[k], r.offered[k]);
  }

  /**
   * Exactly once: whatever the interleaving and repetition, each number of a
   * mildly reordered delivery is accepted when it first arrives and at no other
   * time, the last number of the period excepted.
   */
  lemma ExactlyOnce(r: Run, k: nat)
    requires IsRun(r) && MildlyReordered(r.offered) && k < |r.offered|
    ensures AcceptedAt(r, k) <==>
            First(r.offered, k) || (r.offered[k] == U64_MAX && r.states[k].base == U64_MAX)
  {
    EverythingArrivedIsAccepted(r, k);
    ArrivedMembers(r.offered, k, r.offered[k]);
    if First(r.offered, k) {
      FirstIsAccepted(r, k);
    } else {
      AcceptedMembers(r, k, r.offered[k]);
      var i :| 0 <= i < k && r.offered[i] == r.offered[k] && AcceptedAt(r, i);
      ReplayOnlyAtTheEnd(r, i, k);
    }
  }

  // Why a number is refused.

  /** In every run, a refusal tells whether the number was passed, accepted before, or is too far ahead. */
  lemma RefusalsSayWhy(r: Run, k: nat)
    requires IsRun(r) && k < |r.offered|
    ensures var n, base := r.offered[k], r.states[k].base;
            var verdict := Verdict(r.states[k], n);
            && (verdict == Err(AlreadyPassed(n, base)) <==> n < base)
            && (verdict == Err(OutsideWindow(n, Min(base + 32, U64_MAX))) <==> n >= base + 32)
            && (verdict == Err(AlreadySeen(n)) <==>
                  n in Accepted(r, k) && base <= n && base < U64_MAX)
  {
    SeenIsAccepted(r, k, r.offered[k]);
    if r.offered[k] in Accepted(r, k) {
      AcceptedIsNear(r, k, r.offered[k]);
    }
  }

  lemma AcceptedIsNear(r: Run, k: nat, n: u64)
    requires IsRun(r) && k <= |r.offered| && n in Accepted(r, k)
    ensures n < r.states[k].base + 32
  {
    ClosedForm(r, k);
    var to := FrontOf(0, Accepted(r, k), r.states[k]);
  }
}
