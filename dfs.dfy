/** src/algorithms/dfs.ts: depth-first topological sort that pushes each
    node on a finishing stack once its neighbours are done, stops at the
    first back edge, and reverses the stack; one step per transition. */
module Dfs {
  import opened Seqs
  import opened Graph
  import opened Steps
  import GraphUtils

  // Pseudocode lines the steps highlight.
  const LineStart := 0
  const LineRoot := 4
  const LineReverse := 5
  const LineCycleFound := 7
  const LineStackFormed := 8
  const LineBackEdge := 12
  const LineVisit := 16
  const LineNeighbor := 17
  const LinePush := 22

  // ------------------------------------------------------------ specification

  /** The opening step: a select with an empty stack snapshot. */
  function StartStep(): Step {
    Step(Select, None, None, None, Some([]), None, Some(LineStart))
  }

  /** Every step but the final pop carries the finishing stack as it was when
      the step was emitted: the nodes pushed up to and including that step. */
  ghost predicate StackSnapshots(log: seq<Step>) {
    forall k {:trigger log[k].stack} :: 0 <= k < |log| && log[k].kind != Pop ==>
      log[k].stack == Some(IdsAt(log[..k + 1], Push, LinePush))
  }

  /** What the log of a run so far says about its state: it opens with the
      start step; the pushes are the finishing stack, each node once; the
      visits are the visited nodes, each once; and after a back edge the log
      ends with the one cycle step, whose node lies on a cycle. */
  ghost predicate LogState(edges: seq<Edge>, log: seq<Step>, stack: seq<NodeId>, visited: set<NodeId>,
                           hasCycle: bool)
  {
    && |log| >= 1 && log[0] == StartStep()
    && StackSnapshots(log)
    && IdsAt(log, Push, LinePush) == stack && Distinct(stack)
    && Distinct(IdsAt(log, Explore, LineVisit)) && Elems(IdsAt(log, Explore, LineVisit)) == visited
    && |IdsAt(log, Explore, LineBackEdge)| == (if hasCycle then 1 else 0)
    && (hasCycle ==>
          var last := log[|log| - 1];
          last.kind == Explore && last.codeLine == Some(LineBackEdge) && last.nodeId.Some?
          && OnCycle(edges, last.nodeId.value))
  }

  // ------------------------------------------------------------ step emission

  /** Appending a step that is not a pop and carries the current stack. */
  lemma AppendSnapshot(log: seq<Step>, s: Step)
    requires StackSnapshots(log)
    requires s.kind != Pop && s.stack == Some(IdsAt(log + [s], Push, LinePush))
    ensures StackSnapshots(log + [s])
  {
    var log' := log + [s];
    forall k | 0 <= k < |log| && log'[k].kind != Pop
      ensures log'[k].stack == Some(IdsAt(log'[..k + 1], Push, LinePush))
    {
      assert log'[..k + 1] == log[..k + 1];
    }
    assert log'[..|log| + 1] == log';
  }

  /** Appending a pop, which carries no snapshot of the stack. */
  lemma AppendPop(log: seq<Step>, s: Step)
    requires StackSnapshots(log) && s.kind == Pop
    ensures StackSnapshots(log + [s])
  {
    var log' := log + [s];
    forall k | 0 <= k < |log| && log'[k].kind != Pop
      ensures log'[k].stack == Some(IdsAt(log'[..k + 1], Push, LinePush))
    {
      assert log'[..k + 1] == log[..k + 1];
    }
  }

  // ------------------------------------------------------------ the search state

  /** The locals the inner `dfs` closure captures and updates (dfs.ts:10-13
      and the step log): the visited and recursion-stack sets, the finishing
      stack, the cycle flag and the steps so far. */
  datatype Search = Search(visited: set<NodeId>, recursionStack: set<NodeId>, stack: seq<NodeId>,
                           hasCycle: bool, steps: seq<Step>)

  /** The state before any root is tried: only the start step is logged. */
  function Fresh(): Search {
    Search({}, {}, [], false, [StartStep()])
  }

  /** The adjacency lists are the successor lists of their keys, and every
      successor is itself a key. */
  ghost predicate Wired(edges: seq<Edge>, adjList: map<NodeId, seq<NodeId>>) {
    && (forall u :: u in adjList ==> adjList[u] == Succ(edges, u))
    && (forall u, v {:trigger v in Succ(edges, u)} :: u in adjList && v in Succ(edges, u) ==> v in adjList)
  }

  /** The visited nodes are node ids, the log matches the state, and until
      a back edge is found the sets, the `path` of open calls and the stack
      are a depth-first search in progress. */
  ghost predicate RunInv(edges: seq<Edge>, ids: set<NodeId>, s: Search, path: seq<NodeId>) {
    && s.visited <= ids
    && LogState(edges, s.steps, s.stack, s.visited, s.hasCycle)
    && (!s.hasCycle ==> GraphUtils.SearchState(edges, ids, s.visited, s.recursionStack, path, s.stack))
  }

  // ------------------------------------------------------------ transitions

  /** A select, or an explore of a neighbour (line 17): it records the
      current stack and changes nothing else. */
  lemma EmitQuiet(edges: seq<Edge>, ids: set<NodeId>, s: Search, path: seq<NodeId>, step: Step)
    requires RunInv(edges, ids, s, path) && !s.hasCycle
    requires step.kind == Select || (step.kind == Explore && step.codeLine == Some(LineNeighbor))
    requires step.stack == Some(s.stack)
    ensures RunInv(edges, ids, s.(steps := s.steps + [step]), path)
  {
    IdsAtSkip(s.steps, step, Push, LinePush);
    IdsAtSkip(s.steps, step, Explore, LineVisit);
    IdsAtSkip(s.steps, step, Explore, LineBackEdge);
    AppendSnapshot(s.steps, step);
  }

  /** Entering a new node along an edge from the top of the path: it becomes
      visited and joins the recursion stack, and its explore step (line 16)
      is logged. */
  lemma EnterRun(edges: seq<Edge>, ids: set<NodeId>, s: Search, path: seq<NodeId>, u: NodeId)
    requires RunInv(edges, ids, s, path) && !s.hasCycle
    requires u in ids && u !in s.visited && (path == [] || u in Succ(edges, path[|path| - 1]))
    ensures RunInv(edges, ids, Entered(s, u), path + [u])
  {
    GraphUtils.EnterKeepsSearchState(edges, ids, s.visited, s.recursionStack, path, s.stack, u);
    var step := Step(Explore, Some(u), None, None, Some(s.stack), None, Some(LineVisit));
    IdsAtSkip(s.steps, step, Push, LinePush);
    IdsAtAppend(s.steps, step, Explore, LineVisit);
    IdsAtSkip(s.steps, step, Explore, LineBackEdge);
    AppendSnapshot(s.steps, step);
    DistinctAppend(IdsAt(s.steps, Explore, LineVisit), u);
    ElemsAppend(IdsAt(s.steps, Explore, LineVisit), u);
  }

  /** `u` marked visited and on the recursion stack, its explore logged. */
  function Entered(s: Search, u: NodeId): Search {
    s.(visited := s.visited + {u}, recursionStack := s.recursionStack + {u},
       steps := s.steps + [Step(Explore, Some(u), None, None, Some(s.stack), None, Some(LineVisit))])
  }

  /** Leaving a node whose successors are all finished: it leaves the
      recursion stack, is pushed on the finishing stack, and its push step
      (line 22) carries the grown stack. */
  lemma LeaveRun(edges: seq<Edge>, ids: set<NodeId>, s: Search, below: seq<NodeId>, u: NodeId)
    requires RunInv(edges, ids, s, below + [u]) && !s.hasCycle
    requires forall v :: v in Succ(edges, u) ==> v in s.visited - s.recursionStack
    ensures u in s.recursionStack
    ensures RunInv(edges, ids, Left(s, u), below)
    ensures Left(s, u).recursionStack == s.recursionStack - {u}
  {
    DistinctPrefix(below, u);
    ElemsAppend(below, u);
    var rest := s.recursionStack - {u};
    assert s.recursionStack == rest + {u};
    GraphUtils.LeaveKeepsSearchState(edges, ids, s.visited, rest, below, s.stack, u);
    var step := Step(Push, Some(u), None, None, Some(s.stack + [u]), None, Some(LinePush));
    IdsAtAppend(s.steps, step, Push, LinePush);
    IdsAtSkip(s.steps, step, Explore, LineVisit);
    IdsAtSkip(s.steps, step, Explore, LineBackEdge);
    AppendSnapshot(s.steps, step);
    DistinctAppend(s.stack, u);
  }

  /** `u` off the recursion stack and pushed, the push logged. */
  function Left(s: Search, u: NodeId): Search {
    s.(recursionStack := s.recursionStack - {u}, stack := s.stack + [u],
       steps := s.steps + [Step(Push, Some(u), None, None, Some(s.stack + [u]), None, Some(LinePush))])
  }

  /** Reaching a node on the recursion stack along an edge from the top of
      the path: that node lies on a cycle, and the explore step (line 12)
      that reports it ends the log of the search. */
  lemma BackEdgeRun(edges: seq<Edge>, ids: set<NodeId>, s: Search, path: seq<NodeId>, u: NodeId)
    requires RunInv(edges, ids, s, path) && !s.hasCycle
    requires u in s.recursionStack && (path == [] || u in Succ(edges, path[|path| - 1]))
    ensures RunInv(edges, ids, Cycled(s, u), path)
  {
    assert u in Elems(path);
    BackEdgeCycle(edges, path, u);
    var step := Step(Explore, Some(u), None, None, Some(s.stack), None, Some(LineBackEdge));
    IdsAtSkip(s.steps, step, Push, LinePush);
    IdsAtSkip(s.steps, step, Explore, LineVisit);
    IdsAtAppend(s.steps, step, Explore, LineBackEdge);
    AppendSnapshot(s.steps, step);
  }

  /** The cycle flag set and the back-edge explore logged. */
  function Cycled(s: Search, u: NodeId): Search {
    s.(hasCycle := true,
       steps := s.steps + [Step(Explore, Some(u), None, None, Some(s.stack), None, Some(LineBackEdge))])
  }

  // ------------------------------------------------------------ dfs

  /** The inner `dfs(nodeId)` (dfs.ts:31-107): nothing once a cycle is
      known; a back edge when `nodeId` is on the recursion stack; nothing for
      a node already finished; otherwise the node is expanded. */
  method Visit(edges: seq<Edge>, adjList: map<NodeId, seq<NodeId>>, nodeId: NodeId, s: Search,
               ghost path: seq<NodeId>) returns (s': Search)
    requires Wired(edges, adjList) && nodeId in adjList && RunInv(edges, adjList.Keys, s, path)
    requires !s.hasCycle ==> path == [] || nodeId in Succ(edges, path[|path| - 1])
    decreases adjList.Keys - s.visited, 1
    ensures RunInv(edges, adjList.Keys, s', path) && s.visited <= s'.visited && s.stack <= s'.stack
    ensures s.hasCycle ==> s' == s
    ensures !s.hasCycle && nodeId in s.visited - s.recursionStack ==> s' == s
    ensures !s.hasCycle && nodeId in s.recursionStack ==> s' == Cycled(s, nodeId)
    ensures !s'.hasCycle ==> nodeId in s'.visited - s'.recursionStack && s'.recursionStack == s.recursionStack
  {
    if s.hasCycle {
      return s;
    }
    if nodeId in s.recursionStack {
      BackEdgeRun(edges, adjList.Keys, s, path, nodeId);
      return Cycled(s, nodeId);
    }
    if nodeId in s.visited {
      return s;
    }
    s' := Expand(edges, adjList, nodeId, s, path);
  }

  /** A node seen for the first time (dfs.ts:52-106): it is entered, its
      neighbours are visited in edge order (or their absence is logged), and
      it is pushed unless a cycle turned up meanwhile. */
  method Expand(edges: seq<Edge>, adjList: map<NodeId, seq<NodeId>>, nodeId: NodeId, s: Search,
                ghost path: seq<NodeId>) returns (s': Search)
    requires Wired(edges, adjList) && nodeId in adjList && RunInv(edges, adjList.Keys, s, path)
    requires !s.hasCycle && nodeId !in s.visited
    requires path == [] || nodeId in Succ(edges, path[|path| - 1])
    decreases adjList.Keys - s.visited, 0
    ensures RunInv(edges, adjList.Keys, s', path) && s.visited + {nodeId} <= s'.visited && s.stack <= s'.stack
    ensures !s'.hasCycle ==>
      nodeId in s'.visited - s'.recursionStack && s'.recursionStack == s.recursionStack
      && s.stack < s'.stack && s'.stack[|s'.stack| - 1] == nodeId
  {
    EnterRun(edges, adjList.Keys, s, path, nodeId);
    s' := Entered(s, nodeId);
    var neighbors := adjList[nodeId];
    var note := Step(Select, Some(nodeId), None, None, Some(s'.stack), None, None);
    EmitQuiet(edges, adjList.Keys, s', path + [nodeId], note);
    s' := s'.(steps := s'.steps + [note]);
    if |neighbors| > 0 {
      s' := VisitNeighbors(edges, adjList, nodeId, neighbors, s', path + [nodeId]);
      if s'.hasCycle {
        return;
      }
    }
    ghost var before := s';
    LeaveRun(edges, adjList.Keys, s', path, nodeId);
    s' := Left(s', nodeId);
    assert s'.stack[..|before.stack|] == before.stack;
  }

  /** The `for` loop over the neighbours of the node on top of the path
      (dfs.ts:73-87): an explore step (line 17) and a visit for each,
      stopping at the first cycle. */
  method VisitNeighbors(edges: seq<Edge>, adjList: map<NodeId, seq<NodeId>>, nodeId: NodeId,
                        neighbors: seq<NodeId>, s: Search, ghost path: seq<NodeId>) returns (s': Search)
    requires Wired(edges, adjList) && nodeId in adjList && neighbors == Succ(edges, nodeId)
    requires RunInv(edges, adjList.Keys, s, path) && !s.hasCycle
    requires path != [] && path[|path| - 1] == nodeId
    decreases adjList.Keys - s.visited, 2
    ensures RunInv(edges, adjList.Keys, s', path) && s.visited <= s'.visited && s.stack <= s'.stack
    ensures !s'.hasCycle ==> s'.recursionStack == s.recursionStack
    ensures !s'.hasCycle ==> GraphUtils.Finished(neighbors, s'.visited - s'.recursionStack)
  {
    s' := s;
    for j := 0 to |neighbors|
      invariant RunInv(edges, adjList.Keys, s', path) && !s'.hasCycle
      invariant s.visited <= s'.visited && s'.recursionStack == s.recursionStack && s.stack <= s'.stack
      invariant GraphUtils.Finished(neighbors[..j], s'.visited - s'.recursionStack)
    {
      var neighbor := neighbors[j];
      assert neighbor in Succ(edges, nodeId);
      var visit := Step(Explore, Some(neighbor), None, None, Some(s'.stack), None, Some(LineNeighbor));
      EmitQuiet(edges, adjList.Keys, s', path, visit);
      s' := s'.(steps := s'.steps + [visit]);
      ghost var before := s';
      s' := Visit(edges, adjList, neighbor, s', path);
      if s'.hasCycle {
        return;
      }
      GraphUtils.FinishedNext(neighbors, j, before.visited - before.recursionStack, s'.visited - s'.recursionStack);
    }
    assert neighbors[..|neighbors|] == neighbors;
  }

  // ------------------------------------------------------------ dfsTopologicalSort

  /** dfsTopologicalSort: a search from every node not yet visited while no
      cycle is known (dfs.ts:110-122), then either the cycle report or the
      stack and its reversal (dfs.ts:124-150). */
  method DfsTopologicalSort(nodes: seq<Node>, edges: seq<Edge>) returns (steps: seq<Step>)
    requires WellFormed(nodes, edges)
    ensures |steps| >= 2 && steps[0] == StartStep()
    ensures StackSnapshots(steps) && Distinct(IdsAt(steps, Push, LinePush))
    ensures steps[|steps| - 1].kind == Pop <==> !HasCycle(edges)
    ensures HasCycle(edges) ==> Cyclic(steps, edges)
    ensures !HasCycle(edges) ==> Sorted(steps, nodes, edges)
  {
    var adjList := GraphUtils.BuildAdjacency(nodes, edges);
    WiredAdjacency(nodes, edges, adjList);
    var s := Fresh();
    FreshRun(edges, adjList.Keys);
    for i := 0 to |nodes|
      invariant RunInv(edges, adjList.Keys, s, [])
      invariant !s.hasCycle ==> s.recursionStack == {} && Tried(nodes, i, s.visited)
    {
      ghost var before := s;
      if nodes[i].id !in s.visited && !s.hasCycle {
        var root := Step(Select, Some(nodes[i].id), None, None, Some(s.stack), None, Some(LineRoot));
        EmitQuiet(edges, adjList.Keys, s, [], root);
        s := s.(steps := s.steps + [root]);
        s := Visit(edges, adjList, nodes[i].id, s, []);
      }
      if !s.hasCycle {
        TriedNext(nodes, i, before.visited, s.visited);
      }
    }
    if s.hasCycle {
      steps := s.steps + [CycleStep(s.stack)];
    } else {
      steps := s.steps + [StackStep(s.stack), PopStep(s.stack)];
    }
    Conclude(nodes, edges, s, steps);
  }

  /** The closing steps turn the state after the root loop into a log that
      reports the cycle, or the sorted order, exactly when the graph has
      one. */
  lemma Conclude(nodes: seq<Node>, edges: seq<Edge>, s: Search, steps: seq<Step>)
    requires WellFormed(nodes, edges) && RunInv(edges, Elems(Ids(nodes)), s, [])
    requires !s.hasCycle ==> s.recursionStack == {} && Tried(nodes, |nodes|, s.visited)
    requires steps == if s.hasCycle then s.steps + [CycleStep(s.stack)]
                      else s.steps + [StackStep(s.stack), PopStep(s.stack)]
    ensures |steps| >= 2 && steps[0] == StartStep()
    ensures StackSnapshots(steps) && Distinct(IdsAt(steps, Push, LinePush))
    ensures steps[|steps| - 1].kind == Pop <==> !HasCycle(edges)
    ensures HasCycle(edges) ==> Cyclic(steps, edges)
    ensures !HasCycle(edges) ==> Sorted(steps, nodes, edges)
  {
    if s.hasCycle {
      ConcludeCyclic(edges, s.steps, s.stack, s.visited);
    } else {
      AllVisited(nodes, s.visited);
      ConcludeSorted(nodes, edges, s.steps, s.stack, s.visited);
    }
  }

  /** The roots before index `i` have been tried: each is visited. */
  ghost predicate Tried(nodes: seq<Node>, i: nat, visited: set<NodeId>) {
    forall k :: 0 <= k < i && k < |nodes| ==> nodes[k].id in visited
  }

  /** One more root tried. */
  lemma TriedNext(nodes: seq<Node>, i: nat, visited: set<NodeId>, visited': set<NodeId>)
    requires Tried(nodes, i, visited) && visited <= visited' && i < |nodes| && nodes[i].id in visited'
    ensures Tried(nodes, i + 1, visited')
  {}

  /** The adjacency table built from well-formed input is wired. */
  lemma WiredAdjacency(nodes: seq<Node>, edges: seq<Edge>, adjList: map<NodeId, seq<NodeId>>)
    requires WellFormed(nodes, edges)
    requires adjList.Keys == Elems(Ids(nodes)) && forall u :: u in adjList ==> adjList[u] == Succ(edges, u)
    ensures Wired(edges, adjList)
  {
    forall u, v | u in adjList && v in Succ(edges, u) ensures v in adjList {
      SuccWithin(nodes, edges, u, v);
    }
  }

  /** Nothing visited and only the start step logged is a run state. */
  lemma FreshRun(edges: seq<Edge>, ids: set<NodeId>)
    ensures RunInv(edges, ids, Fresh(), [])
  {
    var log := [StartStep()];
    assert log[..1] == log;
    assert IdsAt(log, Push, LinePush) == [] by { assert log[..0] == []; }
    assert IdsAt(log, Explore, LineVisit) == [] by { assert log[..0] == []; }
    assert IdsAt(log, Explore, LineBackEdge) == [] by { assert log[..0] == []; }
  }

  /** The closing step after a cycle (dfs.ts:124-131): complete, empty result. */
  function CycleStep(stack: seq<NodeId>): Step {
    Step(Complete, None, None, None, Some(stack), Some([]), Some(LineCycleFound))
  }

  /** The complete step on success, with the final stack (dfs.ts:136-141). */
  function StackStep(stack: seq<NodeId>): Step {
    Step(Complete, None, None, None, Some(stack), None, Some(LineStackFormed))
  }

  /** The pop step with the reversed stack as the order (dfs.ts:143-149). */
  function PopStep(stack: seq<NodeId>): Step {
    Step(Pop, None, None, None, Some([]), Some(Reverse(stack)), Some(LineReverse))
  }

  /** A log ending in a cycle report: one back-edge step, whose node lies on
      a cycle, and right after it the complete step with an empty result. */
  ghost predicate Cyclic(steps: seq<Step>, edges: seq<Edge>) {
    && |steps| >= 2
    && steps[|steps| - 1] == CycleStep(IdsAt(steps, Push, LinePush))
    && |IdsAt(steps, Explore, LineBackEdge)| == 1
    && var cycle := steps[|steps| - 2];
       cycle.kind == Explore && cycle.codeLine == Some(LineBackEdge) && cycle.nodeId.Some?
       && OnCycle(edges, cycle.nodeId.value)
  }

  /** A log ending in success: every node explored exactly once, no back
      edge, then the complete step with the stack and the pop step whose
      result, the reversed stack, is a topological order. */
  ghost predicate Sorted(steps: seq<Step>, nodes: seq<Node>, edges: seq<Edge>) {
    var stack := IdsAt(steps, Push, LinePush);
    && |steps| >= 2
    && steps[|steps| - 2] == StackStep(stack)
    && steps[|steps| - 1] == PopStep(stack)
    && IdsAt(steps, Explore, LineBackEdge) == []
    && multiset(IdsAt(steps, Explore, LineVisit)) == multiset(Ids(nodes))
    && IsTopologicalOrder(Reverse(stack), nodes, edges)
  }

  /** Every root was tried: the visited set holds every node id. */
  lemma AllVisited(nodes: seq<Node>, visited: set<NodeId>)
    requires forall k :: 0 <= k < |nodes| ==> nodes[k].id in visited
    ensures Elems(Ids(nodes)) <= visited
  {
    forall x | x in Elems(Ids(nodes)) ensures x in visited {
      var k :| 0 <= k < |nodes| && Ids(nodes)[k] == x;
    }
  }

  /** The log of a run stopped by a back edge, closed by the cycle report. */
  lemma ConcludeCyclic(edges: seq<Edge>, log: seq<Step>, stack: seq<NodeId>, visited: set<NodeId>)
    requires LogState(edges, log, stack, visited, true)
    ensures var steps := log + [CycleStep(stack)];
      && steps[0] == StartStep() && StackSnapshots(steps) && Distinct(IdsAt(steps, Push, LinePush))
      && steps[|steps| - 1].kind != Pop && HasCycle(edges) && Cyclic(steps, edges)
  {
    var s := CycleStep(stack);
    IdsAtSkip(log, s, Push, LinePush);
    IdsAtSkip(log, s, Explore, LineBackEdge);
    AppendSnapshot(log, s);
    var w := log[|log| - 1].nodeId.value;
    assert OnCycle(edges, w);
    var p :| IsCycle(edges, p) && p[0] == w;
    assert (log + [s])[|log| - 1] == log[|log| - 1];
  }

  /** The log of a run that visited every node without a back edge, closed
      by the stack and the pop of its reversal. */
  lemma ConcludeSorted(nodes: seq<Node>, edges: seq<Edge>, log: seq<Step>, stack: seq<NodeId>, visited: set<NodeId>)
    requires WellFormed(nodes, edges)
    requires LogState(edges, log, stack, visited, false)
    requires GraphUtils.SearchState(edges, Elems(Ids(nodes)), visited, {}, [], stack)
    requires Elems(Ids(nodes)) <= visited
    ensures var steps := log + [StackStep(stack), PopStep(stack)];
      && steps[0] == StartStep() && StackSnapshots(steps) && Distinct(IdsAt(steps, Push, LinePush))
      && steps[|steps| - 1].kind == Pop && !HasCycle(edges) && Sorted(steps, nodes, edges)
  {
    SortedTail(log, stack);
    ReversedFinishingIsTopological(stack, nodes, edges);
    OrderExcludesCycle(Reverse(stack), edges);
    SameElementsPermutation(IdsAt(log, Explore, LineVisit), Ids(nodes));
  }

  /** The two closing steps of a successful run keep the snapshots and add
      no push, visit or back-edge step. */
  lemma SortedTail(log: seq<Step>, stack: seq<NodeId>)
    requires |log| >= 1 && StackSnapshots(log) && IdsAt(log, Push, LinePush) == stack
    ensures var steps := log + [StackStep(stack), PopStep(stack)];
      && steps[0] == log[0] && StackSnapshots(steps) && IdsAt(steps, Push, LinePush) == stack
      && IdsAt(steps, Explore, LineVisit) == IdsAt(log, Explore, LineVisit)
      && IdsAt(steps, Explore, LineBackEdge) == IdsAt(log, Explore, LineBackEdge)
  {
    var a := StackStep(stack);
    var b := PopStep(stack);
    IdsAtSkip(log, a, Push, LinePush);
    IdsAtSkip(log, a, Explore, LineVisit);
    IdsAtSkip(log, a, Explore, LineBackEdge);
    AppendSnapshot(log, a);
    IdsAtSkip(log + [a], b, Push, LinePush);
    IdsAtSkip(log + [a], b, Explore, LineVisit);
    IdsAtSkip(log + [a], b, Explore, LineBackEdge);
    AppendPop(log + [a], b);
    AppendPair(log, a, b);
  }

}
