/** When a message may be delivered, and what its flag says about what lies behind it. */
module Delivery {
  import opened Words
  import opened SyncMessage

  datatype Deliverability = Ready(ancestryIncomplete: bool) | Waiting

  /** What the caller knows: which messages were delivered, and whether with a gap behind them. */
  type Delivered = map<MessageId, bool>

  predicate Missing(id: MessageId, delivered: Delivered, horizon: set<MessageId>) {
    id !in delivered && id !in horizon
  }

  /** A dependency that leaves a gap behind a message resting on it. */
  predicate Gap(id: MessageId, delivered: Delivered, horizon: set<MessageId>) {
    if id in delivered then delivered[id] else id in horizon
  }

  /** The verdict in terms of the set of dependencies, so that their order cannot matter. */
  predicate IsVerdict(dependencies: set<MessageId>, delivered: Delivered, horizon: set<MessageId>, d: Deliverability) {
    && (d.Waiting? <==> exists id :: id in dependencies && Missing(id, delivered, horizon))
    && (d.Ready? ==> (d.ancestryIncomplete <==> exists id :: id in dependencies && Gap(id, delivered, horizon)))
  }

  method Deliverable(dependencies: seq<MessageId>, delivered: Delivered, horizon: set<MessageId>)
    returns (d: Deliverability)
    ensures IsVerdict((set id | id in dependencies), delivered, horizon, d)
    ensures d.Ready? <==> forall id :: id in dependencies ==> id in delivered || id in horizon
  {
    var ancestryIncomplete := false;
    for i := 0 to |dependencies|
      invariant forall j :: 0 <= j < i ==> dependencies[j] in delivered || dependencies[j] in horizon
      invariant ancestryIncomplete <==> exists j :: 0 <= j < i && Gap(dependencies[j], delivered, horizon)
    {
      var dependency := dependencies[i];
      if dependency in delivered {
        ancestryIncomplete := ancestryIncomplete || delivered[dependency];
      } else if dependency in horizon {
        ancestryIncomplete := true;
      } else {
        assert Missing(dependency, delivered, horizon);
        return Waiting;
      }
    }
    d := Ready(ancestryIncomplete);
  }

  lemma VerdictIsUnique(dependencies: set<MessageId>, delivered: Delivered, horizon: set<MessageId>,
                        d: Deliverability, e: Deliverability)
    requires IsVerdict(dependencies, delivered, horizon, d) && IsVerdict(dependencies, delivered, horizon, e)
    ensures d == e
  {
  }

  // Runs.

  /** Each message's dependencies. */
  type Graph = MessageId -> set<MessageId>

  /** A message delivered, the horizon of that moment, and the flag it was delivered with. */
  datatype Delivery = Delivery(id: MessageId, horizon: set<MessageId>, flag: bool)

  /** What has been delivered after the first `n` deliveries, with the latest flag of each. */
  function After(log: seq<Delivery>, n: nat): Delivered
    requires n <= |log|
  {
    if n == 0 then map[] else After(log, n - 1)[log[n - 1].id := log[n - 1].flag]
  }

  /** Each delivery was found ready against the horizon of its moment, and its flag recorded. */
  ghost predicate IsRun(graph: Graph, log: seq<Delivery>) {
    forall i :: 0 <= i < |log| ==>
      IsVerdict(graph(log[i].id), After(log, i), log[i].horizon, Ready(log[i].flag))
  }

  /** The latest delivery of a message before `n`. */
  ghost predicate Latest(log: seq<Delivery>, n: nat, id: MessageId, j: nat)
    requires n <= |log|
  {
    j < n && log[j].id == id && forall k :: j < k < n ==> log[k].id != id
  }

  lemma {:induction false} DeliveredEarlier(log: seq<Delivery>, n: nat, id: MessageId) returns (j: nat)
    requires n <= |log| && id in After(log, n)
    ensures Latest(log, n, id, j) && After(log, n)[id] == log[j].flag
  {
    if log[n - 1].id == id {
      j := n - 1;
    } else {
      j := DeliveredEarlier(log, n - 1, id);
    }
  }

  lemma {:induction false} LatestIsRecorded(log: seq<Delivery>, n: nat, id: MessageId, j: nat)
    requires n <= |log| && Latest(log, n, id, j)
    ensures id in After(log, n) && After(log, n)[id] == log[j].flag
  {
    if j < n - 1 {
      LatestIsRecorded(log, n - 1, id, j);
    }
  }

  /** In every run a dependency was delivered earlier, or lies in the horizon of that moment. */
  lemma {:induction false} DependenciesComeFirst(graph: Graph, log: seq<Delivery>, i: nat, dep: MessageId)
    requires IsRun(graph, log) && i < |log| && dep in graph(log[i].id)
    ensures dep in log[i].horizon || exists j :: 0 <= j < i && log[j].id == dep
  {
    assert !Missing(dep, After(log, i), log[i].horizon);
    if dep in After(log, i) {
      var j := DeliveredEarlier(log, i, dep);
    }
  }

  /** A path up the graph: each next message is a dependency of the one before. */
  ghost predicate Path(graph: Graph, path: seq<MessageId>) {
    path != [] && forall k :: 0 < k < |path| ==> path[k] in graph(path[k - 1])
  }

  ghost predicate DeliveredBefore(log: seq<Delivery>, n: nat, id: MessageId)
    requires n <= |log|
  {
    exists j :: 0 <= j < n && log[j].id == id
  }

  /** A message delivered without the flag has every ancestor, however far back, delivered before it. */
  lemma {:induction false} NoFlagMeansWhole(
    graph: Graph, log: seq<Delivery>, i: nat, path: seq<MessageId>)
    requires IsRun(graph, log) && i < |log| && !log[i].flag
    requires Path(graph, path) && |path| > 1 && path[0] == log[i].id
    ensures DeliveredBefore(log, i, path[|path| - 1])
    decreases |path|
  {
    var dep := path[1];
    assert path[1] in graph(path[1 - 1]);
    assert !Gap(dep, After(log, i), log[i].horizon) && !Missing(dep, After(log, i), log[i].horizon);
    var j := DeliveredEarlier(log, i, dep);
    if |path| > 2 {
      var rest := path[1..];
      forall k | 0 < k < |rest| ensures rest[k] in graph(rest[k - 1]) {
        assert path[k + 1] in graph(path[k + 1 - 1]);
      }
      NoFlagMeansWhole(graph, log, j, rest);
    }
  }

  /** A path along latest deliveries that ends at a message not delivered by then, in the horizon of that moment. */
  ghost predicate RestsOnGap(graph: Graph, log: seq<Delivery>, i: nat, path: seq<MessageId>)
    requires i < |log|
    decreases |path|
  {
    && |path| > 1 && path[0] == log[i].id && path[1] in graph(path[0])
    && if |path| == 2 then path[1] in log[i].horizon && path[1] !in After(log, i)
       else exists j :: 0 <= j < i && Latest(log, i, path[1], j) && RestsOnGap(graph, log, j, path[1..])
  }

  lemma {:induction false} FlagHasAPath(graph: Graph, log: seq<Delivery>, i: nat)
    returns (path: seq<MessageId>)
    requires IsRun(graph, log) && i < |log| && log[i].flag
    ensures RestsOnGap(graph, log, i, path)
    decreases i
  {
    var before := After(log, i);
    assert IsVerdict(graph(log[i].id), before, log[i].horizon, Ready(log[i].flag));
    var dep :| dep in graph(log[i].id) && Gap(dep, before, log[i].horizon);
    if dep in before {
      var j := DeliveredEarlier(log, i, dep);
      var rest := FlagHasAPath(graph, log, j);
      path := [log[i].id] + rest;
      assert path[1..] == rest && Latest(log, i, path[1], j);
    } else {
      path := [log[i].id, dep];
    }
  }

  lemma {:induction false} PathHasAFlag(
    graph: Graph, log: seq<Delivery>, i: nat, path: seq<MessageId>)
    requires IsRun(graph, log) && i < |log| && RestsOnGap(graph, log, i, path)
    ensures log[i].flag
    decreases |path|
  {
    if |path| == 2 {
      assert Gap(path[1], After(log, i), log[i].horizon);
    } else {
      var j :| 0 <= j < i && Latest(log, i, path[1], j) && RestsOnGap(graph, log, j, path[1..]);
      PathHasAFlag(graph, log, j, path[1..]);
      LatestIsRecorded(log, i, path[1], j);
      assert Gap(path[1], After(log, i), log[i].horizon);
    }
  }

  /** The flag is set exactly when some path of ancestors rests on a horizon message not delivered by then. */
  lemma {:induction false} FlagMeansGap(graph: Graph, log: seq<Delivery>, i: nat)
    requires IsRun(graph, log) && i < |log|
    ensures log[i].flag <==> exists path :: RestsOnGap(graph, log, i, path)
  {
    if log[i].flag {
      var path := FlagHasAPath(graph, log, i);
      assert RestsOnGap(graph, log, i, path);
    }
    if exists path :: RestsOnGap(graph, log, i, path) {
      var path :| RestsOnGap(graph, log, i, path);
      PathHasAFlag(graph, log, i, path);
    }
  }

  lemma {:induction false} DeliveredMeans(log: seq<Delivery>, n: nat, id: MessageId)
    requires n <= |log|
    ensures id in After(log, n) <==> DeliveredBefore(log, n, id)
  {
    if n > 0 {
      DeliveredMeans(log, n - 1, id);
      if DeliveredBefore(log, n, id) && log[n - 1].id != id {
        var j :| 0 <= j < n && log[j].id == id;
        assert j < n - 1 && log[j].id == id;
      }
      if log[n - 1].id == id {
        assert DeliveredBefore(log, n, id);
      }
    }
  }

  /** A message may be delivered next exactly when each dependency was delivered or lies in the horizon. */
  lemma DeliverableWhen(graph: Graph, log: seq<Delivery>, id: MessageId, horizon: set<MessageId>)
    ensures (exists flag :: IsVerdict(graph(id), After(log, |log|), horizon, Ready(flag))) <==>
              forall dep :: dep in graph(id) ==> dep in horizon || DeliveredBefore(log, |log|, dep)
  {
    var delivered := After(log, |log|);
    forall dep ensures dep in delivered <==> DeliveredBefore(log, |log|, dep) {
      DeliveredMeans(log, |log|, dep);
    }
    if forall dep :: dep in graph(id) ==> dep in horizon || DeliveredBefore(log, |log|, dep) {
      var flag := exists dep :: dep in graph(id) && Gap(dep, delivered, horizon);
      assert IsVerdict(graph(id), delivered, horizon, Ready(flag));
    }
    if flag :| IsVerdict(graph(id), delivered, horizon, Ready(flag)) {
      assert forall dep :: dep in graph(id) ==> !Missing(dep, delivered, horizon);
    }
  }
}
