/** src/algorithms/kahn.ts: Kahn's algorithm with a FIFO queue and an
    in-degree table, logging one step per transition. */
module Kahn {
  import opened Seqs
  import opened Graph
  import opened Steps
  import GraphUtils

  // Pseudocode lines the steps highlight.
  const LineSeed := 6
  const LineDequeue := 8
  const LineAddToResult := 9
  const LineDecrease := 11
  const LineEnqueue := 13
  const LineSuccess := 15
  const LineCycle := 17

  // ------------------------------------------------------------ specification

  /** The node ids of in-degree 0, in input order: the seeded queue. */
  function ZeroInDegree(ids: seq<NodeId>, edges: seq<Edge>): seq<NodeId> {
    if ids == [] then []
    else
      var v := ids[|ids| - 1];
      ZeroInDegree(ids[..|ids| - 1], edges) + (if InDegree(edges, v) == 0 then [v] else [])
  }

  /** The in-degree of every node id. */
  function InitialInDegrees(nodes: seq<Node>, edges: seq<Edge>): map<NodeId, int> {
    map v | v in Elems(Ids(nodes)) :: InDegree(edges, v)
  }

  /** The successor lists of the nodes of `order`, one after the other: the
      targets whose in-degree is decreased while `order` is processed. */
  function SuccConcat(edges: seq<Edge>, order: seq<NodeId>): seq<NodeId> {
    if order == [] then [] else SuccConcat(edges, order[..|order| - 1]) + Succ(edges, order[|order| - 1])
  }

  /** The first step: the full in-degree table and the seeded queue. */
  function SeedStep(inDegrees: map<NodeId, int>, queue: seq<NodeId>): Step {
    Step(Select, None, Some(inDegrees), Some(queue), None, None, Some(LineSeed))
  }

  /** Every `remove` step carries the result as it stood after that removal. */
  ghost predicate RemoveSnapshots(log: seq<Step>) {
    forall k :: 0 <= k < |log| && log[k].kind == Remove ==>
      log[k].result == Some(IdsAt(log[..k + 1], Remove, LineAddToResult))
  }

  predicate NonNegative(inDegrees: Option<map<NodeId, int>>) {
    inDegrees.Some? ==> forall c :: c in inDegrees.value.Values ==> c >= 0
  }

  /** No in-degree snapshot holds a negative count. */
  ghost predicate NonNegativeSnapshots(log: seq<Step>) {
    forall k :: 0 <= k < |log| ==> NonNegative(log[k].inDegrees)
  }

  /** The table `base` after the decrements `ds`, applied in order; a key
      the table lacks is skipped, as `DecreaseMeaning` spells out. */
  function Decrease(base: map<NodeId, int>, ds: seq<NodeId>): map<NodeId, int>
    decreases |ds|
  {
    if ds == [] then base
    else
      var d := Decrease(base, ds[..|ds| - 1]);
      var n := ds[|ds| - 1];
      if n in d then d[n := d[n] - 1] else d
  }

  /** Every in-degree snapshot is the table `base` less the decrements the
      log has recorded (update, line 11) up to and including that step: the
      badges the player shows. */
  ghost predicate TableSnapshots(log: seq<Step>, base: map<NodeId, int>) {
    forall k :: 0 <= k < |log| && log[k].inDegrees.Some? ==>
      log[k].inDegrees.value == Decrease(base, IdsAt(log[..k + 1], Update, LineDecrease))
  }

  /** The decreased table keeps the keys of `base`, and each count is lowered
      once per occurrence of its key among the decrements. */
  lemma {:induction false} DecreaseMeaning(base: map<NodeId, int>, ds: seq<NodeId>)
    ensures Decrease(base, ds).Keys == base.Keys
    ensures forall v :: v in base ==> Decrease(base, ds)[v] == base[v] - multiset(ds)[v]
    decreases |ds|
  {
    if ds != [] {
      var ds', n := ds[..|ds| - 1], ds[|ds| - 1];
      DecreaseMeaning(base, ds');
      assert ds == ds' + [n];
      assert multiset(ds) == multiset(ds') + multiset{n};
    }
  }

  lemma DecreaseNone(base: map<NodeId, int>)
    ensures Decrease(base, []) == base
  {
  }

  /** The decrements of a prefix, one element longer: the table `d` of the
      shorter prefix with the next key lowered by one. */
  lemma DecreaseStep(base: map<NodeId, int>, ds: seq<NodeId>, j: nat, d: map<NodeId, int>)
    requires j < |ds| && ds[j] in d && d == Decrease(base, ds[..j])
    ensures d[ds[j] := d[ds[j]] - 1] == Decrease(base, ds[..j + 1])
  {
    assert ds[..j + 1][..j] == ds[..j];
  }

  /** Decrements applied in two batches. */
  lemma {:induction false} DecreaseConcat(base: map<NodeId, int>, a: seq<NodeId>, b: seq<NodeId>)
    ensures Decrease(Decrease(base, a), b) == Decrease(base, a + b)
    decreases |b|
  {
    if b == [] {
      assert a + b == a;
    } else {
      var b' := b[..|b| - 1];
      DecreaseConcat(base, a, b');
      assert (a + b)[..|a + b| - 1] == a + b';
    }
  }

  /** Appending a step whose snapshot, if any, is the table less every
      decrement logged so far. */
  lemma TableAppend(log: seq<Step>, base: map<NodeId, int>, s: Step)
    requires TableSnapshots(log, base)
    requires s.inDegrees.Some? ==> s.inDegrees.value == Decrease(base, IdsAt(log + [s], Update, LineDecrease))
    ensures TableSnapshots(log + [s], base)
  {
    var log' := log + [s];
    forall k | 0 <= k < |log'| && log'[k].inDegrees.Some?
      ensures log'[k].inDegrees.value == Decrease(base, IdsAt(log'[..k + 1], Update, LineDecrease))
    {
      if k < |log| {
        assert log'[..k + 1] == log[..k + 1];
      } else {
        assert log'[..k + 1] == log';
      }
    }
  }

  /** Appending steps whose snapshots count from the table the log ends with. */
  lemma TableConcat(log: seq<Step>, emitted: seq<Step>, base: map<NodeId, int>)
    requires TableSnapshots(log, base)
    requires TableSnapshots(emitted, Decrease(base, IdsAt(log, Update, LineDecrease)))
    ensures TableSnapshots(log + emitted, base)
  {
    var log' := log + emitted;
    forall k | 0 <= k < |log'| && log'[k].inDegrees.Some?
      ensures log'[k].inDegrees.value == Decrease(base, IdsAt(log'[..k + 1], Update, LineDecrease))
    {
      if k < |log| {
        assert log'[..k + 1] == log[..k + 1];
      } else {
        var j := k - |log|;
        assert log'[k] == emitted[j];
        assert log'[..k + 1] == log + emitted[..j + 1];
        IdsAtConcat(log, emitted[..j + 1], Update, LineDecrease);
        DecreaseConcat(base, IdsAt(log, Update, LineDecrease), IdsAt(emitted[..j + 1], Update, LineDecrease));
      }
    }
  }

  // ------------------------------------------------------------ queue invariant

  /** Every successor of a node id is a node id. */
  ghost predicate Closed(ids: set<NodeId>, edges: seq<Edge>) {
    forall u, v :: u in ids && v in Succ(edges, u) ==> v in ids
  }

  /** The state of the main loop. `done` holds the nodes moved to the result;
      `seen` the result followed by the queue; `rest` the neighbours of the
      current node not decreased yet. Each entry of the in-degree table
      counts the edges into it from nodes not done, plus the pending
      decreases. `seen` holds exactly the nodes whose count reached 0,
      without repetition, each after all of its predecessors. */
  ghost predicate QueueState(ids: set<NodeId>, edges: seq<Edge>, inDegree: map<NodeId, int>,
                             done: set<NodeId>, seen: seq<NodeId>, rest: seq<NodeId>)
  {
    && inDegree.Keys == ids
    && (forall v :: v in inDegree ==> inDegree[v] == Pending(edges, done, v) + multiset(rest)[v])
    && (forall v :: v in inDegree ==> (v in seen <==> inDegree[v] == 0))
    && Distinct(seen) && (forall v :: v in seen ==> v in ids)
    && done <= Elems(seen)
    && PrefixRespectsEdges(seen, edges)
    && (forall v :: v in rest ==> v in ids)
  }

  /** Dequeuing a node of `seen` not done yet moves it to `done`; its
      successors become the pending decreases. */
  lemma DequeueKeepsState(ids: set<NodeId>, edges: seq<Edge>, inDegree: map<NodeId, int>,
                          done: set<NodeId>, seen: seq<NodeId>, u: NodeId)
    requires Closed(ids, edges) && QueueState(ids, edges, inDegree, done, seen, [])
    requires u in seen && u !in done
    ensures QueueState(ids, edges, inDegree, done + {u}, seen, Succ(edges, u))
  {
    forall v | v in inDegree
      ensures inDegree[v] == Pending(edges, done + {u}, v) + multiset(Succ(edges, u))[v]
    {
      PendingSplit(edges, done, u, v);
    }
  }

  /** Decreasing the count of the next pending neighbour `n` settles one
      pending decrease: the count was at least 1. */
  lemma DecreaseCounts(ids: set<NodeId>, edges: seq<Edge>, inDegree: map<NodeId, int>,
                       done: set<NodeId>, rest: seq<NodeId>)
    requires rest != [] && rest[0] in ids && inDegree.Keys == ids
    requires forall v :: v in inDegree ==> inDegree[v] == Pending(edges, done, v) + multiset(rest)[v]
    ensures rest[0] in inDegree && inDegree[rest[0]] >= 1
    ensures var d := inDegree[rest[0] := inDegree[rest[0]] - 1];
      forall v :: v in d ==> d[v] == Pending(edges, done, v) + multiset(rest[1..])[v]
  {
    var n := rest[0];
    assert rest == [n] + rest[1..];
    assert multiset(rest) == multiset{n} + multiset(rest[1..]);
  }

  /** A node whose pending in-degree is 0 may join the end of a sorted prefix
      that holds every done node. */
  lemma EnqueueKeepsOrder(edges: seq<Edge>, done: set<NodeId>, seen: seq<NodeId>, n: NodeId)
    requires PrefixRespectsEdges(seen, edges) && done <= Elems(seen) && Pending(edges, done, n) == 0
    ensures PrefixRespectsEdges(seen + [n], edges)
  {
    var seen' := seen + [n];
    PendingZero(edges, done, n);
    forall k, i | 0 <= k < |edges| && 0 <= i < |seen'| && edges[k].target == seen'[i]
      ensures edges[k].source in seen'[..i]
    {
      if i < |seen| {
        assert seen'[..i] == seen[..i];
      } else {
        assert seen'[..i] == seen;
      }
    }
  }

  /** Decreasing the count of neighbour `n`, the next pending decrease: the
      count was at least 1, and `n` joins `seen` exactly when it reaches 0. */
  lemma DecreaseKeepsState(ids: set<NodeId>, edges: seq<Edge>, inDegree: map<NodeId, int>, d: map<NodeId, int>,
                           done: set<NodeId>, seen: seq<NodeId>, neighbors: seq<NodeId>, j: nat)
    requires j < |neighbors| && QueueState(ids, edges, inDegree, done, seen, neighbors[j..])
    requires neighbors[j] in inDegree && d == inDegree[neighbors[j] := inDegree[neighbors[j]] - 1]
    ensures inDegree[neighbors[j]] >= 1 && NonNegative(Some(d))
    ensures d[neighbors[j]] == 0 ==> QueueState(ids, edges, d, done, seen + [neighbors[j]], neighbors[j + 1..])
    ensures d[neighbors[j]] != 0 ==> QueueState(ids, edges, d, done, seen, neighbors[j + 1..])
  {
    var n := neighbors[j];
    var rest := neighbors[j..];
    assert rest == [n] + neighbors[j + 1..];
    DecreaseCounts(ids, edges, inDegree, done, rest);
    assert rest[1..] == neighbors[j + 1..];
    assert n !in seen;
    if d[n] == 0 {
      assert multiset(rest[1..])[n] == 0;
      EnqueueKeepsOrder(edges, done, seen, n);
      assert Elems(seen + [n]) == Elems(seen) + {n};
    }
  }

  /** The front of the queue is not in the result yet. */
  lemma FrontNotDone(result: seq<NodeId>, queue: seq<NodeId>)
    requires Distinct(result + queue) && queue != []
    ensures queue[0] in result + queue && queue[0] !in result
    ensures result + [queue[0]] + queue[1..] == result + queue
    ensures Elems(result + [queue[0]]) == Elems(result) + {queue[0]}
  {
    var u := queue[0];
    assert (result + queue)[|result|] == u;
    forall i | 0 <= i < |result| ensures result[i] != u {
      assert (result + queue)[i] == result[i];
    }
  }

  /** A result that absorbed every node is a topological order. */
  lemma FullResultIsTopological(nodes: seq<Node>, edges: seq<Edge>, result: seq<NodeId>)
    requires WellFormed(nodes, edges) && Distinct(result) && Elems(result) <= Elems(Ids(nodes))
    requires PrefixRespectsEdges(result, edges) && |result| == |nodes|
    ensures IsTopologicalOrder(result, nodes, edges) && !HasCycle(edges)
  {
    DistinctCard(result);
    DistinctCard(Ids(nodes));
    SubsetSameCard(Elems(result), Elems(Ids(nodes)));
    PrefixOrderIsTopological(result, nodes, edges);
    OrderExcludesCycle(result, edges);
  }

  /** When the queue runs dry short of the node count, the nodes left behind
      all have a predecessor among themselves: the graph has a cycle. */
  lemma ShortResultMeansCycle(nodes: seq<Node>, edges: seq<Edge>, inDegree: map<NodeId, int>, result: seq<NodeId>)
    requires WellFormed(nodes, edges)
    requires QueueState(Elems(Ids(nodes)), edges, inDegree, Elems(result), result, [])
    requires |result| != |nodes|
    ensures HasCycle(edges)
  {
    var ids := Elems(Ids(nodes));
    var left := ids - Elems(result);
    DistinctCard(result);
    DistinctCard(Ids(nodes));
    SubsetCard(Elems(result), ids);
    var missing := MissingElement(Elems(result), ids);
    assert missing in left;
    forall x | x in left ensures HasPredecessorIn(edges, left, x) {
      assert inDegree[x] == Pending(edges, Elems(result), x);
      var k := PendingWitness(edges, Elems(result), x);
      assert edges[k] in edges;
      SuccIsEdges(edges, edges[k].source, x);
    }
    PredecessorsEverywhereCycle(edges, left);
  }

  // ------------------------------------------------------------ log invariant

  /** What the log records so far: the seed step first; the dequeued nodes
      (select, line 8), the removed ones (remove, line 9), the nodes enqueued
      after the seed (select, line 13) and the decreased ones (update, line 11). */
  ghost predicate LogState(log: seq<Step>, init: map<NodeId, int>, seed: seq<NodeId>,
                           dequeued: seq<NodeId>, removed: seq<NodeId>, seen: seq<NodeId>, decreased: seq<NodeId>)
  {
    && |log| >= 1 && log[0] == SeedStep(init, seed)
    && IdsAt(log, Select, LineDequeue) == dequeued
    && IdsAt(log, Remove, LineAddToResult) == removed
    && seed + IdsAt(log, Select, LineEnqueue) == seen
    && IdsAt(log, Update, LineDecrease) == decreased
    && RemoveSnapshots(log)
    && NonNegativeSnapshots(log)
    && TableSnapshots(log, init)
  }

  /** Appending one step: each site trace grows by the step's node when the
      step belongs to it. */
  lemma AppendStep(log: seq<Step>, s: Step)
    requires RemoveSnapshots(log) && NonNegativeSnapshots(log) && |log| >= 1
    requires s.kind == Remove ==> s.result == Some(IdsAt(log + [s], Remove, LineAddToResult))
    requires NonNegative(s.inDegrees)
    ensures RemoveSnapshots(log + [s]) && NonNegativeSnapshots(log + [s])
    ensures (log + [s])[0] == log[0]
    ensures forall kind, line :: IdsAt(log + [s], kind, line) == IdsAt(log, kind, line) + Site(s, kind, line)
  {
    var log' := log + [s];
    forall kind, line
      ensures IdsAt(log', kind, line) == IdsAt(log, kind, line) + Site(s, kind, line)
    {
      IdsAtAppend(log, s, kind, line);
    }
    forall k | 0 <= k < |log'| && log'[k].kind == Remove
      ensures log'[k].result == Some(IdsAt(log'[..k + 1], Remove, LineAddToResult))
    {
      if k < |log| {
        assert log'[..k + 1] == log[..k + 1];
      } else {
        assert log'[..k + 1] == log';
      }
    }
  }

  /** Appending one step keeps the log invariant, each trace growing by the
      step's own site. */
  lemma LogAppend(log: seq<Step>, init: map<NodeId, int>, seed: seq<NodeId>, dequeued: seq<NodeId>,
                  removed: seq<NodeId>, seen: seq<NodeId>, decreased: seq<NodeId>, s: Step)
    requires LogState(log, init, seed, dequeued, removed, seen, decreased)
    requires s.kind == Remove ==> s.result == Some(removed + Site(s, Remove, LineAddToResult))
    requires NonNegative(s.inDegrees)
    requires s.inDegrees.Some? ==> s.inDegrees.value == Decrease(init, decreased + Site(s, Update, LineDecrease))
    ensures LogState(log + [s], init, seed, dequeued + Site(s, Select, LineDequeue),
                     removed + Site(s, Remove, LineAddToResult), seen + Site(s, Select, LineEnqueue),
                     decreased + Site(s, Update, LineDecrease))
  {
    IdsAtAppend(log, s, Remove, LineAddToResult);
    AppendStep(log, s);
    TableAppend(log, init, s);
    assert seed + (IdsAt(log, Select, LineEnqueue) + Site(s, Select, LineEnqueue)) ==
           (seed + IdsAt(log, Select, LineEnqueue)) + Site(s, Select, LineEnqueue);
  }

  /** The log holding only the seed step. */
  lemma SeedLog(init: map<NodeId, int>, seed: seq<NodeId>)
    requires NonNegative(Some(init))
    ensures LogState([SeedStep(init, seed)], init, seed, [], [], seed, [])
  {
    var log := [SeedStep(init, seed)];
    assert log[..0] == [];
    assert log[..1] == log;
    assert seed + [] == seed;
    DecreaseNone(init);
  }

  lemma SuccConcatAppend(edges: seq<Edge>, order: seq<NodeId>, u: NodeId)
    ensures SuccConcat(edges, order + [u]) == SuccConcat(edges, order) + Succ(edges, u)
  {
    assert (order + [u])[..|order|] == order;
  }

  // ------------------------------------------------------------ initialisation

  lemma {:induction false} ZeroInDegreeFacts(ids: seq<NodeId>, edges: seq<Edge>)
    requires Distinct(ids)
    ensures Distinct(ZeroInDegree(ids, edges))
    ensures forall v :: v in ZeroInDegree(ids, edges) <==> v in ids && InDegree(edges, v) == 0
    decreases |ids|
  {
    if ids != [] {
      var init := ids[..|ids| - 1];
      var v := ids[|ids| - 1];
      assert ids == init + [v];
      ZeroInDegreeFacts(init, edges);
      assert v !in init;
    }
  }

  /** No edge ends at a node of in-degree 0. */
  lemma InDegreeZeroNoEdge(edges: seq<Edge>, v: NodeId)
    requires InDegree(edges, v) == 0
    ensures forall k :: 0 <= k < |edges| ==> edges[k].target != v
  {
    PendingNothingDone(edges, v);
    PendingZero(edges, {}, v);
  }

  /** The queue seeded with the in-degree-0 nodes satisfies the loop invariant. */
  lemma SeedState(nodes: seq<Node>, edges: seq<Edge>)
    requires WellFormed(nodes, edges)
    ensures QueueState(Elems(Ids(nodes)), edges, InitialInDegrees(nodes, edges), {},
                       ZeroInDegree(Ids(nodes), edges), [])
  {
    var seed := ZeroInDegree(Ids(nodes), edges);
    ZeroInDegreeFacts(Ids(nodes), edges);
    forall v | v in Elems(Ids(nodes))
      ensures InDegree(edges, v) == Pending(edges, {}, v)
    {
      PendingNothingDone(edges, v);
    }
    forall i | 0 <= i < |seed|
      ensures forall k :: 0 <= k < |edges| ==> edges[k].target != seed[i]
    {
      InDegreeZeroNoEdge(edges, seed[i]);
    }
  }

  // ------------------------------------------------------------ kahnsAlgorithm

  /** The steps the `forEach` over the neighbours of the dequeued node emits:
      `decreased` is the trace of its update steps (line 11) and `enqueued`
      that of its select steps (line 13); it emits no dequeue and no remove
      step, and every in-degree snapshot is non-negative. */
  ghost predicate Emitted(emitted: seq<Step>, decreased: seq<NodeId>, enqueued: seq<NodeId>) {
    && IdsAt(emitted, Update, LineDecrease) == decreased
    && IdsAt(emitted, Select, LineEnqueue) == enqueued
    && IdsAt(emitted, Select, LineDequeue) == []
    && (forall k :: 0 <= k < |emitted| ==> Quiet(emitted[k]))
  }

  /** Not a remove step, and no negative count in its snapshot. */
  predicate Quiet(s: Step) {
    s.kind != Remove && NonNegative(s.inDegrees)
  }

  /** Logging the decrease of `n`. */
  lemma EmitUpdate(emitted: seq<Step>, decreased: seq<NodeId>, enqueued: seq<NodeId>,
                   d: map<NodeId, int>, queue: seq<NodeId>, n: NodeId)
    requires Emitted(emitted, decreased, enqueued) && NonNegative(Some(d))
    ensures Emitted(emitted + [Step(Update, Some(n), Some(d), Some(queue), None, None, Some(LineDecrease))],
                    decreased + [n], enqueued)
  {
    var update := Step(Update, Some(n), Some(d), Some(queue), None, None, Some(LineDecrease));
    IdsAtAppend(emitted, update, Update, LineDecrease);
    IdsAtAppend(emitted, update, Select, LineEnqueue);
    IdsAtAppend(emitted, update, Select, LineDequeue);
  }

  /** The update step of `n` carries the table less the decrements logged
      before it and this one. */
  lemma TableUpdate(emitted: seq<Step>, base: map<NodeId, int>, decreased: seq<NodeId>,
                    d: map<NodeId, int>, queue: seq<NodeId>, n: NodeId)
    requires TableSnapshots(emitted, base) && IdsAt(emitted, Update, LineDecrease) == decreased
    requires d == Decrease(base, decreased + [n])
    ensures TableSnapshots(emitted + [Step(Update, Some(n), Some(d), Some(queue), None, None, Some(LineDecrease))], base)
  {
    var update := Step(Update, Some(n), Some(d), Some(queue), None, None, Some(LineDecrease));
    IdsAtAppend(emitted, update, Update, LineDecrease);
    TableAppend(emitted, base, update);
  }

  /** The select step that enqueues `n` carries the same table as the update
      step before it. */
  lemma TableEnqueue(emitted: seq<Step>, base: map<NodeId, int>, d: map<NodeId, int>, queue: seq<NodeId>, n: NodeId)
    requires TableSnapshots(emitted, base) && d == Decrease(base, IdsAt(emitted, Update, LineDecrease))
    ensures TableSnapshots(emitted + [Step(Select, Some(n), Some(d), Some(queue), None, None, Some(LineEnqueue))], base)
  {
    var enqueue := Step(Select, Some(n), Some(d), Some(queue), None, None, Some(LineEnqueue));
    IdsAtSkip(emitted, enqueue, Update, LineDecrease);
    TableAppend(emitted, base, enqueue);
  }

  /** Logging the enqueuing of `n`. */
  lemma EmitEnqueue(emitted: seq<Step>, decreased: seq<NodeId>, enqueued: seq<NodeId>,
                    d: map<NodeId, int>, queue: seq<NodeId>, n: NodeId)
    requires Emitted(emitted, decreased, enqueued) && NonNegative(Some(d))
    ensures Emitted(emitted + [Step(Select, Some(n), Some(d), Some(queue), None, None, Some(LineEnqueue))],
                    decreased, enqueued + [n])
  {
    var enqueue := Step(Select, Some(n), Some(d), Some(queue), None, None, Some(LineEnqueue));
    IdsAtAppend(emitted, enqueue, Update, LineDecrease);
    IdsAtAppend(emitted, enqueue, Select, LineEnqueue);
    IdsAtAppend(emitted, enqueue, Select, LineDequeue);
  }

  /** The trace of a site over two logs one after the other. */
  lemma {:induction false} IdsAtConcat(a: seq<Step>, b: seq<Step>, kind: StepKind, line: int)
    ensures IdsAt(a + b, kind, line) == IdsAt(a, kind, line) + IdsAt(b, kind, line)
    decreases |b|
  {
    if b == [] {
      assert a + b == a;
    } else {
      var b' := b[..|b| - 1];
      var s := b[|b| - 1];
      assert b == b' + [s];
      ConcatAssoc(a, b', [s]);
      IdsAtConcat(a, b', kind, line);
      IdsAtAppend(a + b', s, kind, line);
      IdsAtAppend(b', s, kind, line);
      ConcatAssoc(IdsAt(a, kind, line), IdsAt(b', kind, line), Site(s, kind, line));
    }
  }

  /** A site with no step in the log has an empty trace. */
  lemma {:induction false} IdsAtNone(log: seq<Step>, kind: StepKind, line: int)
    requires forall k :: 0 <= k < |log| ==> log[k].kind != kind
    ensures IdsAt(log, kind, line) == []
    decreases |log|
  {
    if log != [] {
      IdsAtNone(log[..|log| - 1], kind, line);
    }
  }

  /** Appending the steps of the `forEach` keeps the log invariant. */
  lemma LogConcat(log: seq<Step>, init: map<NodeId, int>, seed: seq<NodeId>, dequeued: seq<NodeId>,
                  removed: seq<NodeId>, seen: seq<NodeId>, decreased: seq<NodeId>,
                  emitted: seq<Step>, more: seq<NodeId>, enqueued: seq<NodeId>)
    requires LogState(log, init, seed, dequeued, removed, seen, decreased)
    requires Emitted(emitted, more, enqueued) && TableSnapshots(emitted, Decrease(init, decreased))
    ensures LogState(log + emitted, init, seed, dequeued, removed, seen + enqueued, decreased + more)
  {
    TableConcat(log, emitted, init);
    IdsAtConcat(log, emitted, Update, LineDecrease);
    IdsAtConcat(log, emitted, Select, LineEnqueue);
    IdsAtConcat(log, emitted, Select, LineDequeue);
    IdsAtConcat(log, emitted, Remove, LineAddToResult);
    IdsAtNone(emitted, Remove, LineAddToResult);
    ConcatAssoc(seed, IdsAt(log, Select, LineEnqueue), enqueued);
    SnapshotsConcat(log, emitted);
    assert (log + emitted)[0] == log[0];
  }

  /** Appending steps that are neither removals nor carry negative counts
      keeps both snapshot properties. */
  lemma SnapshotsConcat(log: seq<Step>, emitted: seq<Step>)
    requires RemoveSnapshots(log) && NonNegativeSnapshots(log)
    requires forall k :: 0 <= k < |emitted| ==> Quiet(emitted[k])
    ensures RemoveSnapshots(log + emitted) && NonNegativeSnapshots(log + emitted)
  {
    var log' := log + emitted;
    forall k | |log| <= k < |log'| ensures Quiet(log'[k]) {
      assert Quiet(emitted[k - |log|]);
    }
    forall k | 0 <= k < |log| && log'[k].kind == Remove
      ensures log'[k].result == Some(IdsAt(log'[..k + 1], Remove, LineAddToResult))
    {
      assert log'[..k + 1] == log[..k + 1];
    }
  }

  /** The state of the `forEach` over the neighbours before neighbour `j`:
      the queue invariant with the remaining neighbours pending, and the
      steps emitted so far. */
  ghost predicate NeighborState(ids: set<NodeId>, edges: seq<Edge>, done: set<NodeId>, seen0: seq<NodeId>,
                                queue0: seq<NodeId>, base: map<NodeId, int>, neighbors: seq<NodeId>, j: nat,
                                inDegree: map<NodeId, int>, queue: seq<NodeId>, emitted: seq<Step>)
  {
    && j <= |neighbors| && |queue0| <= |queue| && queue[..|queue0|] == queue0
    && QueueState(ids, edges, inDegree, done, seen0 + queue[|queue0|..], neighbors[j..])
    && Emitted(emitted, neighbors[..j], queue[|queue0|..])
    && inDegree == Decrease(base, neighbors[..j]) && TableSnapshots(emitted, base)
  }

  /** The count of neighbour `j` is decreased and stays positive: the update
      step alone is logged. */
  lemma NeighborKept(ids: set<NodeId>, edges: seq<Edge>, done: set<NodeId>, seen0: seq<NodeId>,
                     queue0: seq<NodeId>, base: map<NodeId, int>, neighbors: seq<NodeId>, j: nat,
                     inDegree: map<NodeId, int>, queue: seq<NodeId>, emitted: seq<Step>, d: map<NodeId, int>)
    requires j < |neighbors| && NeighborState(ids, edges, done, seen0, queue0, base, neighbors, j, inDegree, queue, emitted)
    requires neighbors[j] in inDegree && d == inDegree[neighbors[j] := inDegree[neighbors[j]] - 1]
    requires d[neighbors[j]] != 0
    ensures NeighborState(ids, edges, done, seen0, queue0, base, neighbors, j + 1, d, queue,
                          emitted + [Step(Update, Some(neighbors[j]), Some(d), Some(queue), None, None, Some(LineDecrease))])
  {
    var enqueued := queue[|queue0|..];
    TakeOneMore(neighbors, j);
    DecreaseKeepsState(ids, edges, inDegree, d, done, seen0 + enqueued, neighbors, j);
    DecreaseStep(base, neighbors, j, inDegree);
    TableUpdate(emitted, base, neighbors[..j], d, queue, neighbors[j]);
    EmitUpdate(emitted, neighbors[..j], enqueued, d, queue, neighbors[j]);
  }

  /** The count of neighbour `j` is decreased to 0: the update step is
      logged, the neighbour is enqueued and a select step logged. */
  lemma NeighborEnqueued(ids: set<NodeId>, edges: seq<Edge>, done: set<NodeId>, seen0: seq<NodeId>,
                         queue0: seq<NodeId>, base: map<NodeId, int>, neighbors: seq<NodeId>, j: nat,
                         inDegree: map<NodeId, int>, queue: seq<NodeId>, emitted: seq<Step>, d: map<NodeId, int>)
    requires j < |neighbors| && NeighborState(ids, edges, done, seen0, queue0, base, neighbors, j, inDegree, queue, emitted)
    requires neighbors[j] in inDegree && d == inDegree[neighbors[j] := inDegree[neighbors[j]] - 1]
    requires d[neighbors[j]] == 0
    ensures var n := neighbors[j];
      NeighborState(ids, edges, done, seen0, queue0, base, neighbors, j + 1, d, queue + [n],
                    emitted + [Step(Update, Some(n), Some(d), Some(queue), None, None, Some(LineDecrease))]
                            + [Step(Select, Some(n), Some(d), Some(queue + [n]), None, None, Some(LineEnqueue))])
  {
    var n := neighbors[j];
    var enqueued := queue[|queue0|..];
    var update := Step(Update, Some(n), Some(d), Some(queue), None, None, Some(LineDecrease));
    TakeOneMore(neighbors, j);
    DecreaseKeepsState(ids, edges, inDegree, d, done, seen0 + enqueued, neighbors, j);
    DecreaseStep(base, neighbors, j, inDegree);
    TableUpdate(emitted, base, neighbors[..j], d, queue, n);
    EmitUpdate(emitted, neighbors[..j], enqueued, d, queue, n);
    EmitEnqueue(emitted + [update], neighbors[..j + 1], enqueued, d, queue + [n], n);
    TableEnqueue(emitted + [update], base, d, queue + [n], n);
    AppendAssoc(seen0, enqueued, n);
    SliceAppend(queue, |queue0|, n);
  }

  /** One iteration of the `forEach` callback (kahn.ts:60-83): the count of
      neighbour `j` is decreased and an update step (line 11) emitted; when
      the count reaches 0 the neighbour is enqueued and a select step (line
      13) emitted. */
  method DecreaseNeighbor(ghost ids: set<NodeId>, edges: seq<Edge>, ghost done: set<NodeId>, ghost seen0: seq<NodeId>,
                          ghost queue0: seq<NodeId>, ghost base: map<NodeId, int>, neighbors: seq<NodeId>, j: nat,
                          inDegree: map<NodeId, int>, queue: seq<NodeId>, emitted: seq<Step>)
    returns (inDegree': map<NodeId, int>, queue': seq<NodeId>, emitted': seq<Step>)
    requires j < |neighbors|
    requires NeighborState(ids, edges, done, seen0, queue0, base, neighbors, j, inDegree, queue, emitted)
    ensures NeighborState(ids, edges, done, seen0, queue0, base, neighbors, j + 1, inDegree', queue', emitted')
  {
    var neighbor := neighbors[j];
    assert neighbor in neighbors[j..];
    var d := inDegree[neighbor := inDegree[neighbor] - 1];
    var update := Step(Update, Some(neighbor), Some(d), Some(queue), None, None, Some(LineDecrease));
    inDegree' := d;
    queue' := queue;
    emitted' := emitted + [update];
    if inDegree'[neighbor] == 0 {
      NeighborEnqueued(ids, edges, done, seen0, queue0, base, neighbors, j, inDegree, queue, emitted, d);
      queue' := queue + [neighbor];
      var enqueue := Step(Select, Some(neighbor), Some(d), Some(queue'), None, None, Some(LineEnqueue));
      emitted' := emitted' + [enqueue];
    } else {
      NeighborKept(ids, edges, done, seen0, queue0, base, neighbors, j, inDegree, queue, emitted, d);
    }
  }

  /** The `forEach` over the neighbours of the dequeued node. Every neighbour
      is decreased once, in order, and the queue invariant is restored with
      nothing pending; `emitted` is what the callback pushes on the log. */
  method DecreaseNeighbors(ghost ids: set<NodeId>, edges: seq<Edge>, inDegree0: map<NodeId, int>,
                           ghost done: set<NodeId>, ghost seen0: seq<NodeId>, queue0: seq<NodeId>,
                           neighbors: seq<NodeId>)
    returns (inDegree: map<NodeId, int>, queue: seq<NodeId>, emitted: seq<Step>)
    requires QueueState(ids, edges, inDegree0, done, seen0, neighbors)
    ensures NeighborState(ids, edges, done, seen0, queue0, inDegree0, neighbors, |neighbors|, inDegree, queue, emitted)
  {
    inDegree, queue, emitted := inDegree0, queue0, [];
    TakeDropEnds(neighbors);
    TakeDropEnds(queue0);
    DecreaseNone(inDegree0);
    assert seen0 + [] == seen0;
    for j := 0 to |neighbors|
      invariant NeighborState(ids, edges, done, seen0, queue0, inDegree0, neighbors, j, inDegree, queue, emitted)
    {
      inDegree, queue, emitted :=
        DecreaseNeighbor(ids, edges, done, seen0, queue0, inDegree0, neighbors, j, inDegree, queue, emitted);
    }
  }

  /** The state of the main loop: the queue invariant with nothing pending,
      `result + queue` as the nodes seen, and the log invariant. */
  ghost predicate RunState(ids: set<NodeId>, edges: seq<Edge>, init: map<NodeId, int>, seed: seq<NodeId>,
                           inDegree: map<NodeId, int>, result: seq<NodeId>, queue: seq<NodeId>, steps: seq<Step>)
  {
    && QueueState(ids, edges, inDegree, Elems(result), result + queue, [])
    && LogState(steps, init, seed, result, result, result + queue, SuccConcat(edges, result))
    && inDegree == Decrease(init, SuccConcat(edges, result))
  }

  /** One round of the main loop (kahn.ts:42-94): the front node is dequeued
      and logged (select, line 8), appended to the result, its neighbours'
      counts are decreased, and its removal is logged with the result so far
      (remove, line 9). */
  method ProcessFront(ghost ids: set<NodeId>, edges: seq<Edge>, adjList: map<NodeId, seq<NodeId>>,
                      ghost init: map<NodeId, int>, ghost seed: seq<NodeId>, inDegree: map<NodeId, int>,
                      result: seq<NodeId>, queue: seq<NodeId>, steps: seq<Step>)
    returns (inDegree': map<NodeId, int>, result': seq<NodeId>, queue': seq<NodeId>, steps': seq<Step>)
    requires queue != [] && Closed(ids, edges)
    requires adjList.Keys == ids && forall u :: u in adjList ==> adjList[u] == Succ(edges, u)
    requires RunState(ids, edges, init, seed, inDegree, result, queue, steps)
    ensures RunState(ids, edges, init, seed, inDegree', result', queue', steps')
    ensures result' == result + [queue[0]] && queue[0] in ids && queue[0] !in result
  {
    var currentNode := queue[0];
    DequeueRound(ids, edges, init, seed, inDegree, result, queue, steps);
    steps' := steps + [Step(Select, Some(currentNode), Some(inDegree), Some(queue[1..]), None, None, Some(LineDequeue))];
    result' := result + [currentNode];
    var neighbors := adjList[currentNode];
    var emitted;
    inDegree', queue', emitted := DecreaseNeighbors(ids, edges, inDegree, Elems(result'), result + queue, queue[1..], neighbors);
    RemoveRound(ids, edges, init, seed, result, queue, steps', inDegree, neighbors, inDegree', queue', emitted);
    steps' := steps' + emitted + [Step(Remove, Some(currentNode), Some(inDegree'), Some(queue'), None, Some(result'), Some(LineAddToResult))];
  }

  /** The first half of a round: the front node is new, marking it done
      leaves exactly its successors to be decreased, and its dequeue is
      logged as a select on line 8. */
  lemma DequeueRound(ids: set<NodeId>, edges: seq<Edge>, init: map<NodeId, int>, seed: seq<NodeId>,
                     inDegree: map<NodeId, int>, result: seq<NodeId>, queue: seq<NodeId>, steps: seq<Step>)
    requires queue != [] && Closed(ids, edges)
    requires RunState(ids, edges, init, seed, inDegree, result, queue, steps)
    ensures queue[0] in ids && queue[0] !in result
    ensures QueueState(ids, edges, inDegree, Elems(result + [queue[0]]), result + queue, Succ(edges, queue[0]))
    ensures LogState(steps + [Step(Select, Some(queue[0]), Some(inDegree), Some(queue[1..]), None, None, Some(LineDequeue))],
                     init, seed, result + [queue[0]], result, result + queue, SuccConcat(edges, result))
  {
    var u := queue[0];
    FrontNotDone(result, queue);
    DequeueKeepsState(ids, edges, inDegree, Elems(result), result + queue, u);
    var select := Step(Select, Some(u), Some(inDegree), Some(queue[1..]), None, None, Some(LineDequeue));
    assert SuccConcat(edges, result) + Site(select, Update, LineDecrease) == SuccConcat(edges, result);
    LogAppend(steps, init, seed, result, result, result + queue, SuccConcat(edges, result), select);
  }

  /** The second half of a round: after the successors are decreased, the
      removal logged as a remove on line 9 with the result so far restores
      the loop state for the longer result. */
  lemma RemoveRound(ids: set<NodeId>, edges: seq<Edge>, init: map<NodeId, int>, seed: seq<NodeId>,
                    result: seq<NodeId>, queue: seq<NodeId>, steps: seq<Step>, base: map<NodeId, int>,
                    neighbors: seq<NodeId>, inDegree: map<NodeId, int>, queue': seq<NodeId>, emitted: seq<Step>)
    requires queue != [] && neighbors == Succ(edges, queue[0])
    requires LogState(steps, init, seed, result + [queue[0]], result, result + queue, SuccConcat(edges, result))
    requires base == Decrease(init, SuccConcat(edges, result))
    requires NeighborState(ids, edges, Elems(result + [queue[0]]), result + queue, queue[1..], base, neighbors,
                           |neighbors|, inDegree, queue', emitted)
    ensures RunState(ids, edges, init, seed, inDegree, result + [queue[0]], queue',
                     steps + emitted + [Step(Remove, Some(queue[0]), Some(inDegree), Some(queue'), None,
                                             Some(result + [queue[0]]), Some(LineAddToResult))])
  {
    var u := queue[0];
    RoundQueue(ids, edges, result, queue, base, neighbors, inDegree, queue', emitted);
    DecreaseConcat(init, SuccConcat(edges, result), neighbors);
    RoundLog(steps, init, seed, result, u, result + queue, SuccConcat(edges, result),
             emitted, neighbors, queue'[|queue| - 1..], inDegree, queue');
    SuccConcatAppend(edges, result, u);
  }

  /** After the successors are decreased, every node seen so far is the
      result followed by the queue, and nothing is left to decrease. */
  lemma RoundQueue(ids: set<NodeId>, edges: seq<Edge>, result: seq<NodeId>, queue: seq<NodeId>, base: map<NodeId, int>,
                   neighbors: seq<NodeId>, inDegree: map<NodeId, int>, queue': seq<NodeId>, emitted: seq<Step>)
    requires queue != []
    requires NeighborState(ids, edges, Elems(result + [queue[0]]), result + queue, queue[1..], base, neighbors,
                           |neighbors|, inDegree, queue', emitted)
    ensures |queue| - 1 <= |queue'|
    ensures QueueState(ids, edges, inDegree, Elems(result + [queue[0]]), result + [queue[0]] + queue', [])
    ensures NonNegative(Some(inDegree))
    ensures Emitted(emitted, neighbors, queue'[|queue| - 1..])
    ensures inDegree == Decrease(base, neighbors) && TableSnapshots(emitted, base)
    ensures result + queue + queue'[|queue| - 1..] == result + [queue[0]] + queue'
  {
    var rest := queue[1..];
    TakeDropEnds(neighbors);
    FrontSplit(result, queue);
    Regroup(result, queue[0], rest, queue');
    QueueNonNegative(ids, edges, inDegree, Elems(result + [queue[0]]), result + queue + queue'[|rest|..], []);
  }

  /** The log after a round: the emitted update and enqueue steps, then the
      remove step carrying the result so far. */
  lemma RoundLog(steps: seq<Step>, init: map<NodeId, int>, seed: seq<NodeId>, result: seq<NodeId>, u: NodeId,
                 seen: seq<NodeId>, decreased: seq<NodeId>, emitted: seq<Step>, neighbors: seq<NodeId>,
                 enqueued: seq<NodeId>, inDegree: map<NodeId, int>, queue: seq<NodeId>)
    requires LogState(steps, init, seed, result + [u], result, seen, decreased)
    requires Emitted(emitted, neighbors, enqueued)
    requires TableSnapshots(emitted, Decrease(init, decreased))
    requires NonNegative(Some(inDegree)) && inDegree == Decrease(init, decreased + neighbors)
    ensures LogState(steps + emitted + [Step(Remove, Some(u), Some(inDegree), Some(queue), None,
                                             Some(result + [u]), Some(LineAddToResult))],
                     init, seed, result + [u], result + [u], seen + enqueued, decreased + neighbors)
  {
    LogConcat(steps, init, seed, result + [u], result, seen, decreased, emitted, neighbors, enqueued);
    var remove := Step(Remove, Some(u), Some(inDegree), Some(queue), None, Some(result + [u]), Some(LineAddToResult));
    assert decreased + neighbors + Site(remove, Update, LineDecrease) == decreased + neighbors;
    LogAppend(steps + emitted, init, seed, result + [u], result, seen + enqueued, decreased + neighbors, remove);
  }

  /** Counts described by the queue state are never negative. */
  lemma QueueNonNegative(ids: set<NodeId>, edges: seq<Edge>, inDegree: map<NodeId, int>,
                         done: set<NodeId>, seen: seq<NodeId>, rest: seq<NodeId>)
    requires QueueState(ids, edges, inDegree, done, seen, rest)
    ensures NonNegative(Some(inDegree))
  {
  }

  /** The nodes seen after a round: the old ones followed by those enqueued. */
  lemma Regroup(result: seq<NodeId>, u: NodeId, rest: seq<NodeId>, queue: seq<NodeId>)
    requires |rest| <= |queue| && queue[..|rest|] == rest
    ensures result + [u] + rest + queue[|rest|..] == result + [u] + queue
  {
    SplitAt(queue, |rest|);
    ConcatAssoc(result + [u], rest, queue[|rest|..]);
  }

  /** The state right after seeding: nothing done, the seed step logged. */
  lemma SeedRunState(nodes: seq<Node>, edges: seq<Edge>)
    requires WellFormed(nodes, edges)
    ensures var init := InitialInDegrees(nodes, edges);
      var seed := ZeroInDegree(Ids(nodes), edges);
      RunState(Elems(Ids(nodes)), edges, init, seed, init, [], seed, [SeedStep(init, seed)])
  {
    var init := InitialInDegrees(nodes, edges);
    var seed := ZeroInDegree(Ids(nodes), edges);
    var none: seq<NodeId> := [];
    SeedState(nodes, edges);
    SeedLog(init, seed);
    DecreaseNone(init);
    assert none + seed == seed && Elems(none) == {} && SuccConcat(edges, none) == [];
  }

  /** The tables kahn.ts:13-21 builds: counts for exactly the node ids (the
      endpoints are node ids), each the in-degree; every successor is a node. */
  lemma TablesAreInitial(nodes: seq<Node>, edges: seq<Edge>, inDegree: map<NodeId, int>)
    requires WellFormed(nodes, edges)
    requires inDegree.Keys == Elems(Ids(nodes)) + GraphUtils.Targets(edges)
    requires forall v :: v in inDegree ==> inDegree[v] == InDegree(edges, v)
    ensures inDegree == InitialInDegrees(nodes, edges) && NonNegative(Some(inDegree))
    ensures Closed(Elems(Ids(nodes)), edges)
  {
    var ids := Elems(Ids(nodes));
    assert GraphUtils.Targets(edges) <= ids by {
      forall v | v in GraphUtils.Targets(edges) ensures v in ids {
        var e :| e in edges && e.target == v;
      }
    }
    forall u, v | u in ids && v in Succ(edges, u) ensures v in ids {
      SuccWithin(nodes, edges, u, v);
    }
  }

  /** kahnsAlgorithm. The queue is seeded with the nodes of in-degree 0 in
      input order; each dequeued node joins the result and decreases its
      successors' counts, enqueuing those that reach 0; the last step reports
      success exactly when every node made it into the result, which happens
      exactly when the graph has no cycle. */
  method KahnsAlgorithm(nodes: seq<Node>, edges: seq<Edge>) returns (steps: seq<Step>)
    requires WellFormed(nodes, edges)
    ensures Logged(steps, nodes, edges)
    ensures var r := FinalResult(steps);
      && Distinct(r) && Elems(r) <= Elems(Ids(nodes)) && PrefixRespectsEdges(r, edges)
      && (|r| == |nodes| <==> !HasCycle(edges))
      && (!HasCycle(edges) ==> IsTopologicalOrder(r, nodes, edges))
  {
    ghost var ids := Elems(Ids(nodes));
    var adjList := GraphUtils.BuildAdjacency(nodes, edges);
    var inDegree := GraphUtils.CalculateInDegrees(nodes, edges);
    TablesAreInitial(nodes, edges, inDegree);
    var queue := SeedQueue(nodes, edges, inDegree);
    var result: seq<NodeId> := [];
    ghost var seed := queue;
    ghost var init := inDegree;
    steps := [SeedStep(inDegree, queue)];
    SeedRunState(nodes, edges);

    while queue != []
      invariant RunState(ids, edges, init, seed, inDegree, result, queue, steps)
      decreases ids - Elems(result)
    {
      ghost var before := result;
      inDegree, result, queue, steps := ProcessFront(ids, edges, adjList, init, seed, inDegree, result, queue, steps);
      ElemsAppend(before, result[|before|]);
    }

    Conclude(nodes, edges, inDegree, result, steps);
    steps := steps + [CompleteStep(result, |nodes|)];
  }

  /** The log kahnsAlgorithm returns for `nodes` and `edges`. It opens with
      the seed step (the in-degree table and the queue of the nodes of
      in-degree 0) and closes with the complete step, on the success line
      exactly when the result holds every node. The queue is FIFO: the
      dequeued, removed and seeded-then-enqueued nodes are the result, in
      order. Every out-edge of each removed node is logged as one update, in
      edge order. Each remove step carries the result so far, and each
      in-degree snapshot is the initial table less the decrements logged up
      to it. */
  ghost predicate Logged(steps: seq<Step>, nodes: seq<Node>, edges: seq<Edge>) {
    var r := FinalResult(steps);
    && |steps| >= 2
    && steps[0] == SeedStep(InitialInDegrees(nodes, edges), ZeroInDegree(Ids(nodes), edges))
    && steps[|steps| - 1] ==
       Step(Complete, None, None, None, None, Some(r), Some(if |r| == |nodes| then LineSuccess else LineCycle))
    && ZeroInDegree(Ids(nodes), edges) + IdsAt(steps, Select, LineEnqueue) == r
    && IdsAt(steps, Select, LineDequeue) == r
    && IdsAt(steps, Remove, LineAddToResult) == r
    && IdsAt(steps, Update, LineDecrease) == SuccConcat(edges, r)
    && RemoveSnapshots(steps) && NonNegativeSnapshots(steps)
    && TableSnapshots(steps, InitialInDegrees(nodes, edges))
  }

  /** The closing step (kahn.ts:98-112): complete, with the result, on the
      success line when every node was output and the cycle line otherwise. */
  function CompleteStep(result: seq<NodeId>, nodeCount: nat): (s: Step)
    ensures s.kind == Complete && s.result == Some(result)
  {
    Step(Complete, None, None, None, None, Some(result), Some(if |result| != nodeCount then LineCycle else LineSuccess))
  }

  /** With the queue empty, the result is a full topological order exactly
      when the graph has no cycle. */
  lemma Verdict(nodes: seq<Node>, edges: seq<Edge>, inDegree: map<NodeId, int>, result: seq<NodeId>)
    requires WellFormed(nodes, edges)
    requires QueueState(Elems(Ids(nodes)), edges, inDegree, Elems(result), result, [])
    ensures Distinct(result) && Elems(result) <= Elems(Ids(nodes)) && PrefixRespectsEdges(result, edges)
    ensures |result| == |nodes| <==> !HasCycle(edges)
    ensures !HasCycle(edges) ==> IsTopologicalOrder(result, nodes, edges)
  {
    if |result| == |nodes| {
      FullResultIsTopological(nodes, edges, result);
    } else {
      ShortResultMeansCycle(nodes, edges, inDegree, result);
      DistinctWithin(result, Elems(Ids(nodes)));
      DistinctCard(Ids(nodes));
    }
  }

  /** Once the queue is empty, the log closed by the complete step has every
      property KahnsAlgorithm promises. */
  lemma Conclude(nodes: seq<Node>, edges: seq<Edge>, inDegree: map<NodeId, int>, result: seq<NodeId>, steps: seq<Step>)
    requires WellFormed(nodes, edges)
    requires RunState(Elems(Ids(nodes)), edges, InitialInDegrees(nodes, edges), ZeroInDegree(Ids(nodes), edges),
                      inDegree, result, [], steps)
    ensures var steps' := steps + [CompleteStep(result, |nodes|)];
      && FinalResult(steps') == result && Logged(steps', nodes, edges)
      && Distinct(result) && Elems(result) <= Elems(Ids(nodes)) && PrefixRespectsEdges(result, edges)
      && (|result| == |nodes| <==> !HasCycle(edges))
      && (!HasCycle(edges) ==> IsTopologicalOrder(result, nodes, edges))
  {
    var none: seq<NodeId> := [];
    assert result + none == result;
    Verdict(nodes, edges, inDegree, result);
    LogAppend(steps, InitialInDegrees(nodes, edges), ZeroInDegree(Ids(nodes), edges),
              result, result, result, SuccConcat(edges, result), CompleteStep(result, |nodes|));
  }

  /** The initial queue: the node ids whose count is 0, in
      input order. */
  method SeedQueue(nodes: seq<Node>, edges: seq<Edge>, inDegree: map<NodeId, int>) returns (queue: seq<NodeId>)
    requires inDegree == InitialInDegrees(nodes, edges)
    ensures queue == ZeroInDegree(Ids(nodes), edges)
  {
    queue := [];
    for i := 0 to |nodes|
      invariant queue == ZeroInDegree(Ids(nodes)[..i], edges)
    {
      assert Ids(nodes)[..i + 1][..i] == Ids(nodes)[..i];
      if inDegree[nodes[i].id] == 0 {
        queue := queue + [nodes[i].id];
      }
    }
    assert Ids(nodes)[..|nodes|] == Ids(nodes);
  }
}
