/** The sender's count of streams, and its numbers at the receiver's window. */
module StreamCounter {
  import opened Words
  import opened Window
  import opened WindowRuns

  datatype Count = Count(next: u64, exhausted: bool)

  /** What taking a number does to a count, and what it hands out. */
  function After(c: Count): Count {
    if c.exhausted then c
    else if c.next < U64_MAX then Count(c.next + 1, false)
    else Count(c.next, true)
  }

  function Taken(c: Count): Result<u64, WindowError> {
    if c.exhausted then Err(CounterExhausted) else Ok(c.next)
  }

  /** A counter put back from the number it would use next. */
  function Restored(next: u64): Count {
    Count(next, false)
  }

  class StreamCounter {
    var next: u64
    var exhausted: bool

    function Now(): Count
      reads this
    {
      Count(next, exhausted)
    }

    constructor ()
      ensures Now() == Count(0, false)
    {
      next, exhausted := 0, false;
    }

    constructor Restore(next: u64)
      ensures Now() == Restored(next)
    {
      this.next, exhausted := next, false;
    }

    /** The number the next stream will use. */
    function Peek(): u64
      reads this
      ensures Peek() == Now().next
    {
      next
    }

    method Take() returns (r: Result<u64, WindowError>)
      modifies this
      ensures r == Taken(old(Now())) && Now() == After(old(Now()))
    {
      if exhausted {
        return Err(CounterExhausted);
      }
      var number := next;
      if next < U64_MAX {
        next := next + 1;
      } else {
        exhausted := true;
      }
      r := Ok(number);
    }
  }

  function AfterTakes(c: Count, k: nat): Count {
    if k == 0 then c else After(AfterTakes(c, k - 1))
  }

  /** Taking hands out every number from the start to 2^64 - 1, each once and in order, and then nothing. */
  lemma {:induction false} TakesInOrder(start: u64, k: nat)
    ensures var c := AfterTakes(Restored(start), k);
            && c == (if start + k <= U64_MAX then Count(start + k, false) else Count(U64_MAX, true))
            && Taken(c) == (if start + k <= U64_MAX then Ok(start + k) else Err(CounterExhausted))
  {
    if k > 0 {
      TakesInOrder(start, k - 1);
    }
  }

  /**
   * A counter restored from the number it would use next goes on as if it had
   * never been put away, exactly as long as it is not exhausted: the stored
   * number does not say that the last one was handed out.
   */
  lemma RestoreContinues(start: u64, k: nat)
    ensures var c := AfterTakes(Restored(start), k);
            (forall j: nat :: Taken(AfterTakes(Restored(c.next), j)) == Taken(AfterTakes(c, j)))
              <==> !c.exhausted
    ensures AfterTakes(Restored(start), k).exhausted <==> start + k > U64_MAX
  {
    TakesInOrder(start, k);
    var c := AfterTakes(Restored(start), k);
    if c.exhausted {
      assert Taken(AfterTakes(Restored(c.next), 0)) != Taken(AfterTakes(c, 0));
    } else {
      assert Restored(c.next) == c;
    }
  }

  /** Restoring an exhausted counter hands out the last number a second time. */
  lemma RestoreRepeatsTheLast()
    ensures var used := AfterTakes(Restored(U64_MAX), 1);
            Taken(Restored(U64_MAX)) == Taken(Restored(used.next)) == Ok(U64_MAX)
  {
    TakesInOrder(U64_MAX, 1);
  }

  ghost predicate AmongTakes(n: u64, takes: nat) {
    exists k :: 0 <= k < takes && Taken(AfterTakes(Count(0, false), k)) == Ok(n)
  }

  /** Every number offered was taken from a fresh counter that has not yet used the last one. */
  ghost predicate Sent(offered: seq<u64>, takes: nat) {
    && takes <= U64_MAX
    && forall i :: 0 <= i < |offered| ==> AmongTakes(offered[i], takes)
  }

  /**
   * Sender and receiver together: over a channel that repeats, and reorders no
   * further than the window allows, every stream is accepted when it first
   * arrives and never again.
   */
  lemma ExactlyOnceFromCounter(r: Run, takes: nat, i: nat)
    requires IsRun(r) && Sent(r.offered, takes) && MildlyReordered(r.offered) && i < |r.offered|
    ensures AcceptedAt(r, i) <==> First(r.offered, i)
  {
    assert AmongTakes(r.offered[i], takes);
    var k :| 0 <= k < takes && Taken(AfterTakes(Count(0, false), k)) == Ok(r.offered[i]);
    TakesInOrder(0, k);
    ExactlyOnce(r, i);
  }
}
