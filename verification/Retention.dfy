/** What a device keeps, and what it may drop. */
module Retention {
  import opened Words
  import opened SyncMessage

  const DAY_MS: u64 := 24 * 60 * 60 * 1000

  datatype Retention = All | Count(n: u32) | Age(days: u32)

  /** A message held, and when this device received it. */
  datatype Held = Held(id: MessageId, receivedMs: u64)

  // The policy, entry by entry.

  /** Whether the entry at `i` is newer than the one at `j`: received later, or as late and given before. */
  predicate Newer(held: seq<Held>, i: nat, j: nat)
    requires i < |held| && j < |held|
  {
    held[i].receivedMs > held[j].receivedMs || (held[i].receivedMs == held[j].receivedMs && i < j)
  }

  function NewerThan(held: seq<Held>, j: nat): set<nat>
    requires j < |held|
  {
    set i: nat | i < |held| && Newer(held, i, j)
  }

  function Cutoff(nowMs: u64, days: u32): u64 {
    var window := SatMul(days, DAY_MS);
    if nowMs >= window then nowMs - window else 0
  }

  predicate Dropped(policy: Retention, nowMs: u64, held: seq<Held>, i: nat)
    requires i < |held|
  {
    match policy
    case All => false
    case Count(n) => |NewerThan(held, i)| >= n
    case Age(days) => held[i].receivedMs < Cutoff(nowMs, days)
  }

  /** The identifiers dropped among the first `k` entries, in the order given. */
  function DropList(policy: Retention, nowMs: u64, held: seq<Held>, k: nat): seq<MessageId>
    requires k <= |held|
  {
    if k == 0 then []
    else
      DropList(policy, nowMs, held, k - 1) + (if Dropped(policy, nowMs, held, k - 1) then [held[k - 1].id] else [])
  }

  /** What remains of the first `k` entries. */
  function Remaining(policy: Retention, nowMs: u64, held: seq<Held>, k: nat): seq<Held>
    requires k <= |held|
  {
    if k == 0 then []
    else
      Remaining(policy, nowMs, held, k - 1) + (if Dropped(policy, nowMs, held, k - 1) then [] else [held[k - 1]])
  }

  // Newest first.

  predicate NewestFirst(held: seq<Held>, order: seq<nat>) {
    && (forall p :: 0 <= p < |order| ==> order[p] < |held|)
    && forall p, q :: 0 <= p < q < |order| ==> Newer(held, order[p], order[q])
  }

  /** An index put into its place. */
  function Inserted(held: seq<Held>, order: seq<nat>, i: nat): (r: seq<nat>)
    requires i < |held| && NewestFirst(held, order) && i !in order
    ensures NewestFirst(held, r) && |r| == |order| + 1
    ensures forall j :: j in r <==> j == i || j in order
  {
    if order == [] then [i]
    else if Newer(held, i, order[0]) then [i] + order
    else
      var rest := Inserted(held, order[1..], i);
      assert forall j :: j in order <==> j == order[0] || j in order[1..];
      assert forall q :: 0 <= q < |rest| ==> rest[q] in rest;
      [order[0]] + rest
  }

  /** `sort_by`, on the indices of the first `k` entries. */
  function Sorted(held: seq<Held>, k: nat): (order: seq<nat>)
    requires k <= |held|
    ensures NewestFirst(held, order) && |order| == k
    ensures forall j: nat :: j in order <==> j < k
  {
    if k == 0 then [] else Inserted(held, Sorted(held, k - 1), k - 1)
  }

  lemma {:induction false} SetOfDistinct(s: seq<nat>, p: nat)
    requires p <= |s| && forall a, b :: 0 <= a < b < |s| ==> s[a] != s[b]
    ensures |set a | 0 <= a < p :: s[a]| == p
  {
    if p > 0 {
      SetOfDistinct(s, p - 1);
      assert (set a | 0 <= a < p :: s[a]) == (set a | 0 <= a < p - 1 :: s[a]) + {s[p - 1]};
    }
  }

  lemma NewerIsBefore(held: seq<Held>, order: seq<nat>, a: nat, p: nat)
    requires NewestFirst(held, order) && a < |order| && p < |order|
    ensures Newer(held, order[a], order[p]) <==> a < p
  {
    if a < p {
      assert Newer(held, order[a], order[p]);
    } else if p < a {
      assert Newer(held, order[p], order[a]);
    }
  }

  function FirstOf(order: seq<nat>, p: nat): set<nat>
    requires p <= |order|
  {
    set a | 0 <= a < p :: order[a]
  }

  /** The place of an entry, newest first, is how many are newer. */
  lemma PlaceIsNewerCount(held: seq<Held>, p: nat)
    requires p < |held|
    ensures |NewerThan(held, Sorted(held, |held|)[p])| == p
  {
    var order := Sorted(held, |held|);
    forall a, b | 0 <= a < b < |order| ensures order[a] != order[b] {
      NewerIsBefore(held, order, a, b);
      NewerIsBefore(held, order, b, a);
    }
    SetOfDistinct(order, p);
    forall i: nat ensures i in NewerThan(held, order[p]) <==> i in FirstOf(order, p) {
      NewerIsAmongFirst(held, order, p, i);
    }
    assert NewerThan(held, order[p]) == FirstOf(order, p);
  }

  lemma NewerIsAmongFirst(held: seq<Held>, order: seq<nat>, p: nat, i: nat)
    requires p < |held| && order == Sorted(held, |held|)
    ensures i in NewerThan(held, order[p]) <==> i in FirstOf(order, p)
  {
    if i < |held| {
      assert i in order;
      var a :| 0 <= a < |order| && order[a] == i;
      NewerIsBefore(held, order, a, p);
      if i in FirstOf(order, p) {
        var b :| 0 <= b < p && order[b] == i;
        NewerIsBefore(held, order, b, p);
      }
    }
  }

  /** Being among the first `n`, newest first, is having fewer than `n` newer. */
  lemma {:induction false} KeptMeansFewNewer(held: seq<Held>, n: nat, i: nat)
    requires i < |held|
    ensures i in Sorted(held, |held|)[..if n <= |held| then n else |held|] <==> |NewerThan(held, i)| < n
  {
    var order := Sorted(held, |held|);
    assert i in order;
    var p :| 0 <= p < |order| && order[p] == i;
    PlaceIsNewerCount(held, p);
    TakenMeansBefore(order, if n <= |held| then n else |held|, i);
    if i in order[..if n <= |held| then n else |held|] {
      var q :| 0 <= q < (if n <= |held| then n else |held|) && order[q] == i;
      PlaceIsNewerCount(held, q);
    }
  }

  lemma TakenMeansBefore(order: seq<nat>, m: nat, i: nat)
    requires m <= |order|
    ensures i in order[..m] <==> exists q :: 0 <= q < m && order[q] == i
  {
    var taken := order[..m];
    assert forall q :: 0 <= q < m ==> taken[q] == order[q];
    if exists q :: 0 <= q < m && order[q] == i {
      var q :| 0 <= q < m && order[q] == i;
      assert taken[q] == i;
    }
  }

  method Droppable(policy: Retention, nowMs: u64, held: seq<Held>) returns (ids: seq<MessageId>)
    ensures ids == DropList(policy, nowMs, held, |held|)
  {
    ids := [];
    match policy
    case All =>
      NothingDropped(policy, nowMs, held, |held|);
    case Count(n) =>
      var newestFirst := Sorted(held, |held|);
      var keep := newestFirst[..if n <= |held| then n else |held|];
      for i := 0 to |held|
        invariant ids == DropList(policy, nowMs, held, i)
      {
        KeptMeansFewNewer(held, n, i);
        if i !in keep {
          ids := ids + [held[i].id];
        }
      }
    case Age(days) =>
      var window := SatMul(days, DAY_MS);
      var cutoff := if nowMs >= window then nowMs - window else 0;
      for i := 0 to |held|
        invariant ids == DropList(policy, nowMs, held, i)
      {
        if held[i].receivedMs < cutoff {
          ids := ids + [held[i].id];
        }
      }
  }

  // What the policy promises.

  lemma {:induction false} NothingDropped(policy: Retention, nowMs: u64, held: seq<Held>, k: nat)
    requires k <= |held| && forall i :: 0 <= i < k ==> !Dropped(policy, nowMs, held, i)
    ensures DropList(policy, nowMs, held, k) == [] && Remaining(policy, nowMs, held, k) == held[..k]
  {
    if k > 0 {
      NothingDropped(policy, nowMs, held, k - 1);
      assert !Dropped(policy, nowMs, held, k - 1);
      assert held[..k] == held[..k - 1] + [held[k - 1]];
    }
  }

  /** Entries with fewer than `n` newer, among the first `k`. */
  function KeptIndices(held: seq<Held>, n: nat, k: nat): set<nat>
    requires k <= |held|
  {
    set i: nat | i < k && |NewerThan(held, i)| < n
  }

  lemma {:induction false} RemainingCounts(policy: Retention, nowMs: u64, held: seq<Held>, k: nat)
    requires k <= |held| && policy.Count?
    ensures |Remaining(policy, nowMs, held, k)| == |KeptIndices(held, policy.n, k)|
    ensures |DropList(policy, nowMs, held, k)| + |Remaining(policy, nowMs, held, k)| == k
  {
    if k > 0 {
      RemainingCounts(policy, nowMs, held, k - 1);
      var before, now := KeptIndices(held, policy.n, k - 1), KeptIndices(held, policy.n, k);
      if Dropped(policy, nowMs, held, k - 1) {
        assert now == before;
      } else {
        assert now == before + {k - 1};
      }
    }
  }

  lemma KeptAreTheFirst(held: seq<Held>, n: nat)
    ensures |KeptIndices(held, n, |held|)| == if n <= |held| then n else |held|
  {
    var order := Sorted(held, |held|);
    var m := if n <= |held| then n else |held|;
    forall a, b | 0 <= a < b < |order| ensures order[a] != order[b] {
      NewerIsBefore(held, order, a, b);
      NewerIsBefore(held, order, b, a);
    }
    SetOfDistinct(order, m);
    assert forall a :: 0 <= a < m ==> order[a] in order && order[a] < |held|;
    assert forall i: nat :: i in FirstOf(order, m) ==> i < |held|;
    forall i: nat | i < |held| ensures i in KeptIndices(held, n, |held|) <==> i in FirstOf(order, m) {
      KeptMeansFewNewer(held, n, i);
      TakenMeansBefore(order, m, i);
    }
    assert KeptIndices(held, n, |held|) == FirstOf(order, m);
  }

  /** Counting drops exactly what is over the count. */
  lemma CountDropsTheExcess(n: u32, nowMs: u64, held: seq<Held>)
    ensures |DropList(Count(n), nowMs, held, |held|)| == if n <= |held| then |held| - n else 0
    ensures |Remaining(Count(n), nowMs, held, |held|)| == if n <= |held| then n else |held|
  {
    RemainingCounts(Count(n), nowMs, held, |held|);
    KeptAreTheFirst(held, n);
  }

  lemma FewAreAllKept(n: u32, nowMs: u64, held: seq<Held>, i: nat)
    requires |held| <= n && i < |held|
    ensures !Dropped(Count(n), nowMs, held, i)
  {
    KeptMeansFewNewer(held, n, i);
    var order := Sorted(held, |held|);
    assert order[..|held|] == order && i in order;
  }

  lemma {:induction false} RemainingOf(policy: Retention, nowMs: u64, held: seq<Held>, k: nat)
    requires k <= |held| && policy.Age?
    ensures forall h :: h in Remaining(policy, nowMs, held, k) ==> h.receivedMs >= Cutoff(nowMs, policy.days)
  {
    if k > 0 {
      RemainingOf(policy, nowMs, held, k - 1);
    }
  }

  /** What remains after a policy, the same policy at the same time leaves alone. */
  lemma RetentionIsIdempotent(policy: Retention, nowMs: u64, held: seq<Held>)
    ensures var rest := Remaining(policy, nowMs, held, |held|);
            DropList(policy, nowMs, rest, |rest|) == [] && Remaining(policy, nowMs, rest, |rest|) == rest
  {
    var rest := Remaining(policy, nowMs, held, |held|);
    forall i | 0 <= i < |rest| ensures !Dropped(policy, nowMs, rest, i) {
      match policy
      case All =>
      case Count(n) =>
        CountDropsTheExcess(n, nowMs, held);
        FewAreAllKept(n, nowMs, rest, i);
      case Age(days) =>
        RemainingOf(policy, nowMs, held, |held|);
        assert rest[i] in rest;
    }
    NothingDropped(policy, nowMs, rest, |rest|);
    assert rest[..|rest|] == rest;
  }

  /** Something received ahead of the clock is never too old. */
  lemma FutureReceiptIsKept(days: u32, nowMs: u64, held: seq<Held>, i: nat)
    requires i < |held| && held[i].receivedMs >= nowMs
    ensures !Dropped(Age(days), nowMs, held, i)
  {
  }

  // The policies, in terms of receipt times.

  /** Whatever a count keeps was received later than what it drops, or as late and given before. */
  lemma CountKeepsTheLatest(n: u32, nowMs: u64, held: seq<Held>, i: nat, j: nat)
    requires i < |held| && j < |held|
    requires Dropped(Count(n), nowMs, held, i) && !Dropped(Count(n), nowMs, held, j)
    ensures held[j].receivedMs > held[i].receivedMs || (held[j].receivedMs == held[i].receivedMs && j < i)
  {
    if !Newer(held, j, i) {
      assert forall k: nat :: k in NewerThan(held, i) ==> k in NewerThan(held, j);
      SubsetIsSmaller(NewerThan(held, i), NewerThan(held, j));
    }
  }

  lemma {:induction false} SubsetIsSmaller(a: set<nat>, b: set<nat>)
    requires a <= b
    ensures |a| <= |b|
  {
    assert b == a + (b - a);
  }

  /** An age drops what was received more than so many days ago, to the millisecond, and no policy is the third. */
  lemma AgeDropsTheOld(days: u32, nowMs: u64, held: seq<Held>, i: nat)
    requires i < |held|
    ensures Dropped(Age(days), nowMs, held, i) <==> held[i].receivedMs + days * 86_400_000 < nowMs
    ensures !Dropped(All, nowMs, held, i)
  {
  }

  /** Which of the first `k` entries a policy drops. */
  function DroppedIndices(policy: Retention, nowMs: u64, held: seq<Held>, k: nat): set<nat>
    requires k <= |held|
  {
    set i: nat | i < k && Dropped(policy, nowMs, held, i)
  }

  /** The list of the dropped has each of them at its place among them, and nothing else. */
  lemma {:induction false} DropListKeepsOrder(policy: Retention, nowMs: u64, held: seq<Held>, k: nat, i: nat)
    requires i < k <= |held|
    ensures var ids := DropList(policy, nowMs, held, k);
            && |ids| == |DroppedIndices(policy, nowMs, held, k)|
            && (Dropped(policy, nowMs, held, i) ==>
                  |DroppedIndices(policy, nowMs, held, i)| < |ids|
                  && ids[|DroppedIndices(policy, nowMs, held, i)|] == held[i].id)
  {
    DropListCounts(policy, nowMs, held, k);
    if i < k - 1 {
      DropListKeepsOrder(policy, nowMs, held, k - 1, i);
    } else {
      DropListCounts(policy, nowMs, held, i);
    }
  }

  lemma {:induction false} DropListCounts(policy: Retention, nowMs: u64, held: seq<Held>, k: nat)
    requires k <= |held|
    ensures |DropList(policy, nowMs, held, k)| == |DroppedIndices(policy, nowMs, held, k)|
  {
    if k > 0 {
      DropListCounts(policy, nowMs, held, k - 1);
      var before, now := DroppedIndices(policy, nowMs, held, k - 1), DroppedIndices(policy, nowMs, held, k);
      assert k - 1 !in before;
      if Dropped(policy, nowMs, held, k - 1) {
        assert now == before + {k - 1};
      } else {
        assert now == before;
      }
    }
  }
}
