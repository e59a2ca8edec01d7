/** src/App.tsx: the playback controller. A cursor in [-1, |steps| - 1] over
    a fixed step log, a view that projects each node onto one of four visit
    states with the in-degree it shows, the order panel, and the editing
    operations that add and delete nodes and edges. React's state setters
    are modelled as assignments in the order the handlers issue them. */
module App {
  import opened Seqs
  import opened Strings
  import opened Graph
  import opened Steps
  import GraphUtils
  import Kahn
  import Dfs

  /** The colour a node is drawn in. */
  datatype VisitState = Unvisited | Ready | Processing | Processed

  /** The engine the user selected. */
  datatype Algorithm = KahnSort | DfsSort

  /** A node as the canvas shows it: the graph node plus its visit state
      and the in-degree badge. */
  datatype ViewNode = ViewNode(id: NodeId, text: string, state: VisitState, inDegree: int)

  // ------------------------------------------------------------ the view

  /** The graph nodes behind the view (App.tsx:100-106). */
  function GraphNodes(ns: seq<ViewNode>): seq<Node> {
    seq(|ns|, k requires 0 <= k < |ns| => Node(ns[k].id, ns[k].text))
  }

  /** Two views of the same nodes, in the same order. */
  ghost predicate SameNodes(ns: seq<ViewNode>, ms: seq<ViewNode>) {
    |ns| == |ms| && forall k :: 0 <= k < |ns| ==> ns[k].id == ms[k].id && ns[k].text == ms[k].text
  }

  /** Views of the same nodes stand for the same graph nodes. */
  lemma SameGraphNodes(ns: seq<ViewNode>, ms: seq<ViewNode>)
    requires SameNodes(ns, ms)
    ensures GraphNodes(ns) == GraphNodes(ms)
  {
    assert forall k :: 0 <= k < |ns| ==> GraphNodes(ns)[k] == GraphNodes(ms)[k];
  }

  /** `step.inDegrees?.[id]`: the count the step's snapshot holds for `id`. */
  function Snapshot(step: Step, id: NodeId): Option<int> {
    if step.inDegrees.Some? && id in step.inDegrees.value then Some(step.inDegrees.value[id]) else None
  }

  /** The state of the node a step is about (App.tsx:136-139). */
  function Highlight(kind: StepKind, state: VisitState): VisitState {
    if kind == Select || kind == Explore then Processing
    else if kind == Remove || kind == Push then Processed
    else state
  }

  /** applyStep's transform of one node (App.tsx:134-163): the step's own
      node is highlighted and takes its snapshot count if there is one;
      another node with a count in the snapshot takes it, and turns ready
      when that count is 0 and it was unvisited; every other node is kept. */
  function ApplyToNode(step: Step, n: ViewNode): ViewNode {
    var d := Snapshot(step, n.id);
    if step.nodeId == Some(n.id) then
      n.(state := Highlight(step.kind, n.state), inDegree := if d.Some? then d.value else n.inDegree)
    else if d.Some? then
      n.(inDegree := d.value, state := if d.value == 0 && n.state == Unvisited then Ready else n.state)
    else
      n
  }

  /** applyStep's `nds.map(...)` (App.tsx:133-165). */
  function ApplyToNodes(step: Step, ns: seq<ViewNode>): (ms: seq<ViewNode>)
    ensures SameNodes(ns, ms)
  {
    seq(|ns|, k requires 0 <= k < |ns| => ApplyToNode(step, ns[k]))
  }

  /** The order panel after a step: replaced exactly when the step carries a
      result (App.tsx:167-169). */
  function OrderAfter(order: seq<NodeId>, step: Step): seq<NodeId> {
    if step.result.Some? then step.result.value else order
  }

  /** The view after applying the steps of `log` in turn. */
  function Replay(ns: seq<ViewNode>, log: seq<Step>): (r: seq<ViewNode>)
    ensures SameNodes(ns, r)
  {
    if log == [] then ns else ApplyToNodes(log[|log| - 1], Replay(ns, log[..|log| - 1]))
  }

  /** The order panel after applying the steps of `log` in turn. */
  function ReplayOrder(order: seq<NodeId>, log: seq<Step>): seq<NodeId> {
    if log == [] then order else OrderAfter(ReplayOrder(order, log[..|log| - 1]), log[|log| - 1])
  }

  /** Every node back to unvisited, in-degree badges kept (App.tsx:209-217, 250-257). */
  function Unvisit(ns: seq<ViewNode>): (ms: seq<ViewNode>)
    ensures SameNodes(ns, ms)
  {
    seq(|ns|, k requires 0 <= k < |ns| => ns[k].(state := Unvisited))
  }

  /** `inDegrees[node.id] || 0`: a node missing from the table shows 0. */
  function Lookup(table: map<NodeId, int>, id: NodeId): int {
    if id in table then table[id] else 0
  }

  /** Every badge set from an in-degree table (App.tsx:86-94, 231-239). */
  function WithInDegrees(ns: seq<ViewNode>, table: map<NodeId, int>): (ms: seq<ViewNode>)
    ensures SameNodes(ns, ms)
  {
    seq(|ns|, k requires 0 <= k < |ns| => ns[k].(inDegree := Lookup(table, ns[k].id)))
  }

  /** The view before any step: every node unvisited, showing its in-degree
      in the current edges. */
  function Fresh(ns: seq<ViewNode>, edges: seq<Edge>): (r: seq<ViewNode>)
    ensures SameNodes(ns, r)
  {
    seq(|ns|, k requires 0 <= k < |ns| => ns[k].(state := Unvisited, inDegree := InDegree(edges, ns[k].id)))
  }

  /** The view a sequence of forward steps from the fresh view shows at
      cursor `c`: steps 0..c applied. */
  function ForwardView(ns: seq<ViewNode>, edges: seq<Edge>, log: seq<Step>, c: int): seq<ViewNode>
    requires -1 <= c < |log|
  {
    Replay(Fresh(ns, edges), log[..c + 1])
  }

  /** The view one stepBackward leaves from cursor `c` (App.tsx:206-260):
      from c > 0 the fresh view with steps 0..c-2 replayed, from 0 the
      states reset, from -1 the view as it was. */
  function BackView(ns: seq<ViewNode>, edges: seq<Edge>, log: seq<Step>, c: int): seq<ViewNode>
    requires -1 <= c < |log|
  {
    if c > 0 then Replay(Fresh(ns, edges), log[..c - 1])
    else if c == 0 then Unvisit(ns)
    else ns
  }

  /** The view after stepping back from cursor `c` until the cursor is -1. */
  function Rewind(ns: seq<ViewNode>, edges: seq<Edge>, log: seq<Step>, c: int): seq<ViewNode>
    requires -1 <= c < |log|
    decreases c + 1
  {
    if c == -1 then ns else Rewind(BackView(ns, edges, log, c), edges, log, c - 1)
  }

  // ------------------------------------------------------------ view lemmas

  /** Resetting the states and then the badges from calculateInDegrees gives
      the fresh view. */
  lemma FreshFromTable(ns: seq<ViewNode>, edges: seq<Edge>, table: map<NodeId, int>)
    requires table.Keys == Elems(Ids(GraphNodes(ns))) + GraphUtils.Targets(edges)
    requires forall v :: v in table ==> table[v] == InDegree(edges, v)
    ensures WithInDegrees(Unvisit(ns), table) == Fresh(ns, edges)
  {
    var ms := WithInDegrees(Unvisit(ns), table);
    forall k | 0 <= k < |ns| ensures ms[k] == Fresh(ns, edges)[k] {
      assert Ids(GraphNodes(ns))[k] == ns[k].id;
    }
  }

  /** One more step applied extends the replay by that step. */
  lemma ReplayNext(ns: seq<ViewNode>, order: seq<NodeId>, log: seq<Step>, i: nat)
    requires i < |log|
    ensures Replay(ns, log[..i + 1]) == ApplyToNodes(log[i], Replay(ns, log[..i]))
    ensures ReplayOrder(order, log[..i + 1]) == OrderAfter(ReplayOrder(order, log[..i]), log[i])
  {
    assert log[..i + 1][..i] == log[..i];
  }

  /** The step's own node: processing on select and explore, processed on
      remove and push, unchanged on the other kinds; its badge follows the
      snapshot when the snapshot has it. */
  lemma StepNodeRule(step: Step, n: ViewNode)
    requires step.nodeId == Some(n.id)
    ensures var m := ApplyToNode(step, n);
      && m.id == n.id && m.text == n.text
      && (step.kind == Select || step.kind == Explore ==> m.state == Processing)
      && (step.kind == Remove || step.kind == Push ==> m.state == Processed)
      && (step.kind == Update || step.kind == Pop || step.kind == Complete ==> m.state == n.state)
      && m.inDegree == (if Snapshot(step, n.id).Some? then Snapshot(step, n.id).value else n.inDegree)
  {
  }

  /** Any other node turns ready exactly when it was unvisited and the
      snapshot gives it in-degree 0; otherwise it keeps its state. */
  lemma OtherNodeRule(step: Step, n: ViewNode)
    requires step.nodeId != Some(n.id)
    ensures var m := ApplyToNode(step, n);
      && m.id == n.id && m.text == n.text
      && (m.state == Ready <==> n.state == Ready || (n.state == Unvisited && Snapshot(step, n.id) == Some(0)))
      && (m.state != Ready ==> m.state == n.state)
      && m.inDegree == (if Snapshot(step, n.id).Some? then Snapshot(step, n.id).value else n.inDegree)
  {
  }

  /** The order panel changes only on a step with a result, and then shows it. */
  lemma OrderRule(order: seq<NodeId>, step: Step)
    ensures OrderAfter(order, step) != order ==> step.result.Some?
    ensures step.result.Some? ==> OrderAfter(order, step) == step.result.value
  {
  }

  /** Steps without in-degree snapshots (all of dfsTopologicalSort's) never
      make a node ready: a replay of them from a view with no ready node has
      none either. */
  lemma {:induction false} NoSnapshotsNoReady(ns: seq<ViewNode>, log: seq<Step>)
    requires forall k :: 0 <= k < |log| ==> log[k].inDegrees == None
    requires forall k :: 0 <= k < |ns| ==> ns[k].state != Ready
    ensures forall k :: 0 <= k < |ns| ==> Replay(ns, log)[k].state != Ready
    decreases |log|
  {
    if log != [] {
      var init := log[..|log| - 1];
      assert forall k :: 0 <= k < |init| ==> init[k] == log[k];
      NoSnapshotsNoReady(ns, init);
    }
  }

  /** Stepping backward from cursor `c > 0` shows steps 0..c-2 with the cursor
      at c-1: the view of cursor c-2, one step behind the cursor. Some log
      shows it: after stepping back from cursor 1 the view differs from the
      one stepping forward to cursor 0 shows. */
  lemma BackwardLagsCursor()
    ensures var ns := [ViewNode("node-0", "A", Unvisited, 0)];
      var log := [Step(Select, Some("node-0"), None, None, None, None, None),
                  Step(Select, Some("node-0"), None, None, None, None, None)];
      ForwardView(ns, [], log, 1 - 2) != ForwardView(ns, [], log, 1 - 1)
  {
    var ns := [ViewNode("node-0", "A", Unvisited, 0)];
    var s := Step(Select, Some("node-0"), None, None, None, None, None);
    var log := [s, s];
    assert log[..0] == [] && log[..1] == [s];
    assert Replay(Fresh(ns, []), [s])[0].state == Processing;
  }

  /** Once the replay reaches a step with a result, the panel shows it. */
  lemma ReplayShowsResult(order: seq<NodeId>, log: seq<Step>)
    requires log != [] && log[|log| - 1].result.Some?
    ensures ReplayOrder(order, log) == FinalResult(log)
  {
  }

  /** The fresh view depends only on the nodes, not on their states or badges. */
  lemma FreshSameNodes(ns: seq<ViewNode>, ms: seq<ViewNode>, edges: seq<Edge>)
    requires SameNodes(ns, ms)
    ensures Fresh(ns, edges) == Fresh(ms, edges)
  {
    assert forall k :: 0 <= k < |ns| ==> Fresh(ns, edges)[k] == Fresh(ms, edges)[k];
  }

  /** Stepping back from any cursor past the first step until the cursor is
      -1 shows the fresh view: every node unvisited, with its in-degree as
      its badge. From cursor 1 nothing is replayed, and from cursor 0 only
      the states are reset, which leaves the fresh view as it is. */
  lemma {:induction false} RewindShowsFresh(ns: seq<ViewNode>, edges: seq<Edge>, log: seq<Step>, c: int)
    requires 1 <= c < |log|
    ensures Rewind(ns, edges, log, c) == Fresh(ns, edges)
    decreases c
  {
    var ms := BackView(ns, edges, log, c);
    if c == 1 {
      assert log[..0] == [];
      assert Unvisit(Fresh(ns, edges)) == Fresh(ns, edges);
    } else {
      RewindShowsFresh(ms, edges, log, c - 1);
      FreshSameNodes(ns, ms, edges);
    }
  }

  // ------------------------------------------------------------ the graph being edited

  /** Node ids are pairwise different. */
  ghost predicate DistinctIds(ns: seq<ViewNode>) {
    forall i, j :: 0 <= i < j < |ns| ==> ns[i].id != ns[j].id
  }

  /** Some node of the view has id `id`. */
  ghost predicate HasNode(ns: seq<ViewNode>, id: NodeId) {
    exists n :: n in ns && n.id == id
  }

  /** The view stands for a well-formed graph exactly when its ids are
      distinct and every edge joins two of its nodes. */
  lemma ViewWellFormed(ns: seq<ViewNode>, edges: seq<Edge>)
    ensures WellFormed(GraphNodes(ns), edges) <==>
      DistinctIds(ns) && forall e :: e in edges ==> HasNode(ns, e.source) && HasNode(ns, e.target)
  {
    var ids := Ids(GraphNodes(ns));
    assert forall k :: 0 <= k < |ns| ==> ids[k] == ns[k].id;
    forall id ensures id in ids <==> HasNode(ns, id) {
      if id in ids {
        var k :| 0 <= k < |ids| && ids[k] == id;
        assert ns[k] in ns;
      }
      if HasNode(ns, id) {
        var n :| n in ns && n.id == id;
        var k :| 0 <= k < |ns| && ns[k] == n;
        assert ids[k] == id;
      }
    }
  }

  /** handleNodeClick's filters (App.tsx:187-188): the node and the edges at it. */
  function RemoveNode(ns: seq<ViewNode>, id: NodeId): seq<ViewNode> {
    Filter(ns, (n: ViewNode) => n.id != id)
  }

  function RemoveTouching(edges: seq<Edge>, id: NodeId): seq<Edge> {
    Filter(edges, (e: Edge) => e.source != id && e.target != id)
  }

  /** handleEdgeClick's filter (App.tsx:196). */
  function RemoveEdge(edges: seq<Edge>, id: string): seq<Edge> {
    Filter(edges, (e: Edge) => e.id != id)
  }

  /** Filtering keeps the ids distinct. */
  lemma {:induction false} FilterKeepsDistinctIds(ns: seq<ViewNode>, keep: ViewNode -> bool)
    requires DistinctIds(ns)
    ensures DistinctIds(Filter(ns, keep))
    decreases |ns|
  {
    if ns != [] {
      var init := ns[..|ns| - 1];
      var last := ns[|ns| - 1];
      FilterKeepsDistinctIds(init, keep);
      forall n | n in Filter(init, keep) ensures n.id != last.id {
        var i :| 0 <= i < |init| && init[i] == n;
        assert ns[i] == n;
      }
    }
  }

  /** Deleting a node keeps the graph well formed: the node goes, and with
      it every edge touching it, and nothing else. */
  lemma DeleteNodeKeepsWellFormed(ns: seq<ViewNode>, edges: seq<Edge>, id: NodeId)
    requires WellFormed(GraphNodes(ns), edges)
    ensures WellFormed(GraphNodes(RemoveNode(ns, id)), RemoveTouching(edges, id))
    ensures forall n :: n in RemoveNode(ns, id) <==> n in ns && n.id != id
    ensures forall e :: e in RemoveTouching(edges, id) <==> e in edges && e.source != id && e.target != id
  {
    var ns' := RemoveNode(ns, id);
    var edges' := RemoveTouching(edges, id);
    ViewWellFormed(ns, edges);
    ViewWellFormed(ns', edges');
    FilterKeepsDistinctIds(ns, (n: ViewNode) => n.id != id);
    forall e | e in edges' ensures HasNode(ns', e.source) && HasNode(ns', e.target) {
      var s :| s in ns && s.id == e.source;
      var t :| t in ns && t.id == e.target;
      assert s in ns' && t in ns';
    }
  }

  /** Deleting an edge keeps the graph well formed and removes only the
      edges with that id. */
  lemma DeleteEdgeKeepsWellFormed(ns: seq<ViewNode>, edges: seq<Edge>, id: string)
    requires WellFormed(GraphNodes(ns), edges)
    ensures WellFormed(GraphNodes(ns), RemoveEdge(edges, id))
    ensures forall e :: e in RemoveEdge(edges, id) <==> e in edges && e.id != id
  {
  }

  /** The node handleAddNode creates (App.tsx:281-294): id `node-<counter>`,
      labelled by the counter modulo 26 as a capital letter. */
  function NewNode(counter: nat): (n: ViewNode)
    ensures n.state == Unvisited && n.inDegree == 0
    ensures |n.text| == 1 && 'A' <= n.text[0] <= 'Z'
  {
    ViewNode(GraphUtils.NodeName(counter), [CharFromCode(65 + counter % 26)], Unvisited, 0)
  }

  /** Every node id was issued by the counter before it reached `counter`. */
  ghost predicate Issued(ns: seq<ViewNode>, counter: nat) {
    forall n :: n in ns ==> exists j :: 0 <= j < counter && n.id == GraphUtils.NodeName(j)
  }

  /** Adding the counter's node keeps the graph well formed: its id is new. */
  lemma AddNodeKeepsWellFormed(ns: seq<ViewNode>, edges: seq<Edge>, counter: nat)
    requires WellFormed(GraphNodes(ns), edges) && Issued(ns, counter)
    ensures WellFormed(GraphNodes(ns + [NewNode(counter)]), edges) && Issued(ns + [NewNode(counter)], counter + 1)
  {
    var ns' := ns + [NewNode(counter)];
    ViewWellFormed(ns, edges);
    ViewWellFormed(ns', edges);
    forall i, j | 0 <= i < j < |ns'| ensures ns'[i].id != ns'[j].id {
      if j == |ns| {
        assert ns[i] in ns;
        var k :| 0 <= k < counter && ns[i].id == GraphUtils.NodeName(k);
        if ns[i].id == GraphUtils.NodeName(counter) {
          GraphUtils.NodeNameInjective(k, counter);
        }
      } else {
        assert ns'[i] == ns[i] && ns'[j] == ns[j];
      }
    }
    forall e | e in edges ensures HasNode(ns', e.source) && HasNode(ns', e.target) {
      var s :| s in ns && s.id == e.source;
      var t :| t in ns && t.id == e.target;
      assert s in ns' && t in ns';
    }
  }

  /** What the selected engine promises of its log on an acyclic graph: it
      ends with a topological order as its result (kahn.ts:98-112,
      dfs.ts:132-150), and it is the log that engine writes. */
  ghost predicate EngineLog(algorithm: Algorithm, nodes: seq<Node>, edges: seq<Edge>, steps: seq<Step>) {
    && |steps| >= 2
    && steps[|steps| - 1].result == Some(FinalResult(steps))
    && IsTopologicalOrder(FinalResult(steps), nodes, edges)
    && (algorithm == KahnSort ==> Kahn.Logged(steps, nodes, edges))
    && (algorithm == DfsSort ==> Dfs.Sorted(steps, nodes, edges))
  }

  /** The two engines' logs cannot be mistaken for each other: Kahn's ends
      with a complete step, the depth-first one with the pop of the stack. */
  lemma EnginesDiffer(nodes: seq<Node>, edges: seq<Edge>, steps: seq<Step>)
    requires Dfs.Sorted(steps, nodes, edges)
    ensures !Kahn.Logged(steps, nodes, edges)
  {
    assert steps[|steps| - 1].kind == Pop;
  }

  /** A successful depth-first log ends with the reversed finishing order as
      its result, so it is an engine log. */
  lemma SortedIsEngineLog(nodes: seq<Node>, edges: seq<Edge>, steps: seq<Step>)
    requires Dfs.Sorted(steps, nodes, edges)
    ensures EngineLog(DfsSort, nodes, edges, steps)
  {
    var stack := IdsAt(steps, Push, Dfs.LinePush);
    assert steps[|steps| - 1] == Dfs.PopStep(stack);
  }

  /** `algorithm === 'kahn' ? kahnsAlgorithm(...) : dfsTopologicalSort(...)`
      on an acyclic graph (App.tsx:122-124). */
  method RunEngine(algorithm: Algorithm, nodes: seq<Node>, edges: seq<Edge>) returns (steps: seq<Step>)
    requires WellFormed(nodes, edges) && !HasCycle(edges)
    ensures EngineLog(algorithm, nodes, edges, steps)
  {
    if algorithm == KahnSort {
      steps := Kahn.KahnsAlgorithm(nodes, edges);
    } else {
      steps := Dfs.DfsTopologicalSort(nodes, edges);
      SortedIsEngineLog(nodes, edges, steps);
    }
  }

  // ------------------------------------------------------------ the controller

  class Visualizer {
    var nodes: seq<ViewNode>
    var edges: seq<Edge>
    var algorithm: Algorithm
    var steps: seq<Step>
    var currentStep: int
    var isPlaying: bool
    var order: seq<NodeId>
    var nodeCounter: nat
    var deleteMode: bool

    /** The cursor stays within the log, and the edited graph is well formed
        with every node id issued by the counter. */
    ghost predicate Valid()
      reads this
    {
      && -1 <= currentStep < |steps|
      && WellFormed(GraphNodes(nodes), edges) && Issued(nodes, nodeCounter)
    }

    /** The state after mounting (App.tsx:33-43): no nodes, no log, Kahn selected. */
    constructor ()
      ensures Valid()
      ensures nodes == [] && edges == [] && algorithm == KahnSort && steps == [] && currentStep == -1
      ensures !isPlaying && order == [] && nodeCounter == 0 && !deleteMode
    {
      nodes := [];
      edges := [];
      algorithm := KahnSort;
      steps := [];
      currentStep := -1;
      isPlaying := false;
      order := [];
      nodeCounter := 0;
      deleteMode := false;
    }

    /** applyStep (App.tsx:132-170). */
    method ApplyStep(step: Step)
      modifies this`nodes, this`order
      ensures nodes == ApplyToNodes(step, old(nodes)) && order == OrderAfter(old(order), step)
    {
      nodes := ApplyToNodes(step, nodes);
      if step.result.Some? {
        order := step.result.value;
      }
    }

    /** runAlgorithm (App.tsx:98-129): nothing but an alert when the graph has
        a cycle; otherwise the selected engine's log, the cursor before its
        first step, and playback on. */
    method RunAlgorithm()
      requires Valid()
      modifies this`steps, this`currentStep, this`isPlaying
      ensures Valid()
      ensures HasCycle(edges) ==> steps == old(steps) && currentStep == old(currentStep) && isPlaying == old(isPlaying)
      ensures !HasCycle(edges) ==>
        EngineLog(algorithm, GraphNodes(nodes), edges, steps) && currentStep == -1 && isPlaying
    {
      var graphNodes := GraphNodes(nodes);
      var hasCycle := GraphUtils.DetectCycle(graphNodes, edges);
      if hasCycle {
        return;
      }
      var algorithmSteps := RunEngine(algorithm, graphNodes, edges);
      steps := algorithmSteps;
      currentStep := -1;
      isPlaying := true;
    }

    /** stepForward (App.tsx:173-181): the next step is applied while there
        is one; with no log at all the algorithm is run; at the last step
        nothing happens. */
    method StepForward()
      requires Valid()
      modifies this`nodes, this`order, this`steps, this`currentStep, this`isPlaying
      ensures Valid() && edges == old(edges)
      ensures old(currentStep) < |old(steps)| - 1 ==>
        && steps == old(steps) && currentStep == old(currentStep) + 1 && isPlaying == old(isPlaying)
        && nodes == ApplyToNodes(steps[currentStep], old(nodes)) && order == OrderAfter(old(order), steps[currentStep])
      ensures old(currentStep) == |old(steps)| - 1 && old(steps) != [] ==>
        steps == old(steps) && currentStep == old(currentStep) && nodes == old(nodes) && order == old(order)
        && isPlaying == old(isPlaying)
      ensures old(steps) == [] ==> nodes == old(nodes) && order == old(order)
      ensures old(steps) == [] && HasCycle(edges) ==> steps == [] && currentStep == -1 && isPlaying == old(isPlaying)
      ensures old(steps) == [] && !HasCycle(edges) ==>
        EngineLog(algorithm, GraphNodes(nodes), edges, steps) && currentStep == -1 && isPlaying
    {
      if currentStep < |steps| - 1 {
        var nextStep := currentStep + 1;
        currentStep := nextStep;
        IssuedSameNodes(nodes, ApplyToNodes(steps[nextStep], nodes), nodeCounter);
        ApplyStep(steps[nextStep]);
      } else if currentStep == -1 && |steps| == 0 {
        RunAlgorithm();
      }
    }

    /** stepBackward (App.tsx:206-260). From cursor c > 0 the view restarts
        from every node unvisited with fresh in-degrees and replays steps
        0..c-2, and the cursor moves to c-1; from cursor 0 only the states
        are reset and the cursor moves to -1; before the first step nothing
        happens. The order panel is only changed by replayed results. */
    method StepBackward()
      requires Valid()
      modifies this`nodes, this`order, this`currentStep
      ensures Valid()
      ensures old(currentStep) > 0 ==>
        && currentStep == old(currentStep) - 1
        && nodes == Replay(Fresh(old(nodes), edges), steps[..old(currentStep) - 1])
        && nodes == ForwardView(old(nodes), edges, steps, currentStep - 1)
        && order == ReplayOrder(old(order), steps[..old(currentStep) - 1])
      ensures old(currentStep) == 0 ==> currentStep == -1 && nodes == Unvisit(old(nodes)) && order == old(order)
      ensures old(currentStep) == -1 ==> currentStep == -1 && nodes == old(nodes) && order == old(order)
      ensures nodes == BackView(old(nodes), edges, steps, old(currentStep))
    {
      if currentStep > 0 {
        var inDegrees := GraphUtils.CalculateInDegrees(GraphNodes(nodes), edges);
        ghost var start := Fresh(nodes, edges);
        ghost var order0 := order;
        FreshFromTable(nodes, edges, inDegrees);
        nodes := WithInDegrees(Unvisit(nodes), inDegrees);
        assert nodes == Replay(start, steps[..0]) && order == ReplayOrder(order0, steps[..0]);
        for i := 0 to currentStep - 1
          invariant currentStep == old(currentStep)
          invariant nodes == Replay(start, steps[..i]) && order == ReplayOrder(order0, steps[..i])
        {
          ReplayNext(start, order0, steps, i);
          ApplyStep(steps[i]);
        }
        currentStep := currentStep - 1;
        IssuedSameNodes(old(nodes), start, nodeCounter);
        IssuedSameNodes(start, nodes, nodeCounter);
      } else if currentStep == 0 {
        currentStep := -1;
        IssuedSameNodes(nodes, Unvisit(nodes), nodeCounter);
        nodes := Unvisit(nodes);
      }
    }

    /** handleReset (App.tsx:56-95): playback off, no log, empty order panel,
        and the fresh view. */
    method HandleReset()
      requires Valid()
      modifies this`nodes, this`order, this`steps, this`currentStep, this`isPlaying
      ensures Valid()
      ensures !isPlaying && currentStep == -1 && steps == [] && order == []
      ensures nodes == Fresh(old(nodes), edges)
    {
      isPlaying := false;
      currentStep := -1;
      steps := [];
      order := [];
      var inDegrees := GraphUtils.CalculateInDegrees(GraphNodes(nodes), edges);
      FreshFromTable(nodes, edges, inDegrees);
      IssuedSameNodes(nodes, Fresh(nodes, edges), nodeCounter);
      nodes := WithInDegrees(Unvisit(nodes), inDegrees);
    }

    /** One run of the auto-play effect (App.tsx:263-277), with its timer
        firing at once: at or past the last step of a non-empty log playback
        stops; while playing before the last step the next step is shown. */
    method AutoPlayTick()
      requires Valid()
      modifies this`nodes, this`order, this`steps, this`currentStep, this`isPlaying
      ensures Valid()
      ensures old(currentStep) >= |old(steps)| - 1 ==>
        && isPlaying == (old(isPlaying) && old(steps) == [])
        && steps == old(steps) && currentStep == old(currentStep) && nodes == old(nodes) && order == old(order)
      ensures old(isPlaying) && old(currentStep) < |old(steps)| - 1 ==>
        && isPlaying && steps == old(steps) && currentStep == old(currentStep) + 1
        && nodes == ApplyToNodes(steps[currentStep], old(nodes))
        && order == OrderAfter(old(order), steps[currentStep])
      ensures !old(isPlaying) ==>
        && !isPlaying && steps == old(steps) && currentStep == old(currentStep)
        && nodes == old(nodes) && order == old(order)
    {
      if !isPlaying || currentStep >= |steps| - 1 {
        if currentStep >= |steps| - 1 && |steps| > 0 {
          isPlaying := false;
        }
        return;
      }
      StepForward();
    }

    /** The algorithm selector. */
    method SetAlgorithm(a: Algorithm)
      modifies this`algorithm
      ensures algorithm == a
    {
      algorithm := a;
    }

    /** toggleDeleteMode (App.tsx:201-203). */
    method ToggleDeleteMode()
      modifies this`deleteMode
      ensures deleteMode == !old(deleteMode)
    {
      deleteMode := !deleteMode;
    }

    /** handleNodeClick (App.tsx:184-190): in delete mode the node and every
        edge touching it go; otherwise nothing changes. */
    method DeleteNode(id: NodeId)
      requires Valid()
      modifies this`nodes, this`edges
      ensures Valid()
      ensures deleteMode ==> nodes == RemoveNode(old(nodes), id) && edges == RemoveTouching(old(edges), id)
      ensures !deleteMode ==> nodes == old(nodes) && edges == old(edges)
    {
      if deleteMode {
        DeleteNodeKeepsWellFormed(nodes, edges, id);
        nodes := RemoveNode(nodes, id);
        edges := RemoveTouching(edges, id);
      }
    }

    /** handleEdgeClick (App.tsx:193-198): in delete mode the edges with that
        id go; otherwise nothing changes. */
    method DeleteEdge(id: string)
      requires Valid()
      modifies this`edges
      ensures Valid()
      ensures deleteMode ==> edges == RemoveEdge(old(edges), id)
      ensures !deleteMode ==> edges == old(edges)
    {
      if deleteMode {
        DeleteEdgeKeepsWellFormed(nodes, edges, id);
        edges := RemoveEdge(edges, id);
      }
    }

    /** handleAddNode (App.tsx:280-298): the counter's node is appended and
        the counter advances. */
    method AddNode()
      requires Valid()
      modifies this`nodes, this`nodeCounter
      ensures Valid()
      ensures nodes == old(nodes) + [NewNode(old(nodeCounter))] && nodeCounter == old(nodeCounter) + 1
    {
      AddNodeKeepsWellFormed(nodes, edges, nodeCounter);
      nodes := nodes + [NewNode(nodeCounter)];
      nodeCounter := nodeCounter + 1;
    }
  }

  /** Views of the same nodes have the same issued ids and stand for the same
      graph nodes. */
  lemma IssuedSameNodes(ns: seq<ViewNode>, ms: seq<ViewNode>, counter: nat)
    requires SameNodes(ns, ms)
    ensures GraphNodes(ns) == GraphNodes(ms)
    ensures Issued(ns, counter) ==> Issued(ms, counter)
  {
    SameGraphNodes(ns, ms);
    if Issued(ns, counter) {
      forall m | m in ms ensures exists j :: 0 <= j < counter && m.id == GraphUtils.NodeName(j) {
        var k :| 0 <= k < |ms| && ms[k] == m;
        assert ns[k] in ns;
      }
    }
  }
}
