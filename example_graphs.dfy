/** src/utils/exampleGraphs.ts: the five graphs the example menu loads, each
    with the `hasCycle` flag the menu shows. Positions, visit states and the
    zero in-degree badges of the literals belong to the view and are left out. */
module ExampleGraphs {
  import opened Seqs
  import opened Graph
  import opened Steps
  import Kahn

  datatype Example = Example(name: string, description: string, nodes: seq<Node>, edges: seq<Edge>, hasCycle: bool)


  /** exampleGraphs.ts:12-27. */
  const SimpleDag := Example(
    "Simple DAG", "A simple directed acyclic graph with 4 nodes",
    [Node("node-0", "A"), Node("node-1", "B"), Node("node-2", "C"), Node("node-3", "D")],
    [Edge("edge-0-2", "node-0", "node-2"), Edge("edge-0-3", "node-0", "node-3"), Edge("edge-1-3", "node-1", "node-3")],
    false)

  /** exampleGraphs.ts:28-45. */
  const CoursePrerequisites := Example(
    "Course Prerequisites", "University course dependency graph",
    [Node("node-0", "CS101"), Node("node-1", "CS102"), Node("node-2", "CS201"), Node("node-3", "CS301"), Node("node-4", "CS302")],
    [Edge("edge-0-2", "node-0", "node-2"), Edge("edge-1-2", "node-1", "node-2"), Edge("edge-2-3", "node-2", "node-3"), Edge("edge-2-4", "node-2", "node-4")],
    false)

  /** exampleGraphs.ts:46-64. */
  const BuildDependencies := Example(
    "Build Dependencies", "Software build order example",
    [Node("node-0", "main"), Node("node-1", "util"), Node("node-2", "core"), Node("node-3", "api"), Node("node-4", "db")],
    [Edge("edge-1-3", "node-1", "node-3"), Edge("edge-2-4", "node-2", "node-4"), Edge("edge-3-0", "node-3", "node-0"),
     Edge("edge-4-0", "node-4", "node-0"), Edge("edge-1-2", "node-1", "node-2")],
    false)

  /** exampleGraphs.ts:65-82. */
  const LinearChain := Example(
    "Linear Chain", "Simple sequential dependency chain",
    [Node("node-0", "A"), Node("node-1", "B"), Node("node-2", "C"), Node("node-3", "D"), Node("node-4", "E")],
    [Edge("edge-0-1", "node-0", "node-1"), Edge("edge-1-2", "node-1", "node-2"), Edge("edge-2-3", "node-2", "node-3"), Edge("edge-3-4", "node-3", "node-4")],
    false)

  /** exampleGraphs.ts:83-99; the name starts with a warning sign (U+26A0 U+FE0F). */
  const CyclicGraph := Example(
    "\U{26A0}\U{FE0F} Cyclic Graph", "Graph with a cycle - topological sort impossible!",
    [Node("node-0", "A"), Node("node-1", "B"), Node("node-2", "C"), Node("node-3", "D")],
    [Edge("edge-0-1", "node-0", "node-1"), Edge("edge-1-2", "node-1", "node-2"), Edge("edge-2-3", "node-2", "node-3"), Edge("edge-3-0", "node-3", "node-0")],
    true)

  /** exampleGraphs.ts:11-100, in menu order. */
  const Examples: seq<Example> := [SimpleDag, CoursePrerequisites, BuildDependencies, LinearChain, CyclicGraph]

  // ------------------------------------------------------------ counting on literals

  /** 1 when `e` ends at `v`. */
  function Hit(e: Edge, v: NodeId): nat {
    if e.target == v then 1 else 0
  }

  /** The edges ending at `v`, counted from the front. */
  function Hits(edges: seq<Edge>, v: NodeId): nat {
    if edges == [] then 0 else Hit(edges[0], v) + Hits(edges[1..], v)
  }

  lemma {:induction false} InDegreeFront(edges: seq<Edge>, v: NodeId)
    requires edges != []
    ensures InDegree(edges, v) == Hit(edges[0], v) + InDegree(edges[1..], v)
    decreases |edges|
  {
    if |edges| > 1 {
      var init := edges[..|edges| - 1];
      InDegreeFront(init, v);
      assert init[1..] == edges[1..][..|edges[1..]| - 1];
    }
  }

  /** Counting from the front gives the in-degree. */
  lemma {:induction false} InDegreeHits(edges: seq<Edge>, v: NodeId)
    ensures InDegree(edges, v) == Hits(edges, v)
    decreases |edges|
  {
    if edges != [] {
      InDegreeFront(edges, v);
      InDegreeHits(edges[1..], v);
    }
  }

  // ------------------------------------------------------------ well-formedness

  lemma SimpleDagWellFormed()
    ensures Ids(SimpleDag.nodes) == ["node-0", "node-1", "node-2", "node-3"]
    ensures WellFormed(SimpleDag.nodes, SimpleDag.edges)
  {
    assert Ids(SimpleDag.nodes) == ["node-0", "node-1", "node-2", "node-3"];
  }

  lemma CoursePrerequisitesWellFormed()
    ensures Ids(CoursePrerequisites.nodes) == ["node-0", "node-1", "node-2", "node-3", "node-4"]
    ensures WellFormed(CoursePrerequisites.nodes, CoursePrerequisites.edges)
  {
    assert Ids(CoursePrerequisites.nodes) == ["node-0", "node-1", "node-2", "node-3", "node-4"];
  }

  lemma BuildDependenciesWellFormed()
    ensures Ids(BuildDependencies.nodes) == ["node-0", "node-1", "node-2", "node-3", "node-4"]
    ensures WellFormed(BuildDependencies.nodes, BuildDependencies.edges)
  {
    assert Ids(BuildDependencies.nodes) == ["node-0", "node-1", "node-2", "node-3", "node-4"];
  }

  lemma LinearChainWellFormed()
    ensures Ids(LinearChain.nodes) == ["node-0", "node-1", "node-2", "node-3", "node-4"]
    ensures WellFormed(LinearChain.nodes, LinearChain.edges)
  {
    assert Ids(LinearChain.nodes) == ["node-0", "node-1", "node-2", "node-3", "node-4"];
  }

  lemma CyclicGraphWellFormed()
    ensures Ids(CyclicGraph.nodes) == ["node-0", "node-1", "node-2", "node-3"]
    ensures WellFormed(CyclicGraph.nodes, CyclicGraph.edges)
  {
    assert Ids(CyclicGraph.nodes) == ["node-0", "node-1", "node-2", "node-3"];
  }

  /** Every example has distinct node ids and edges between its own nodes. */
  lemma ExamplesWellFormed()
    ensures forall i :: 0 <= i < |Examples| ==> WellFormed(Examples[i].nodes, Examples[i].edges)
  {
    SimpleDagWellFormed();
    CoursePrerequisitesWellFormed();
    BuildDependenciesWellFormed();
    LinearChainWellFormed();
    CyclicGraphWellFormed();
  }

  // ------------------------------------------------------------ the cycle flags

  /** An order in which the source of each edge comes first, given edge by
      edge, respects the edges. */
  lemma RespectsEachEdge(order: seq<NodeId>, edges: seq<Edge>)
    requires forall k :: 0 <= k < |edges| ==>
      edges[k].source in order && edges[k].target in order &&
      IndexOf(order, edges[k].source) < IndexOf(order, edges[k].target)
    ensures RespectsEdges(order, edges)
  {
    forall e | e in edges
      ensures e.source in order && e.target in order && IndexOf(order, e.source) < IndexOf(order, e.target)
    {
      var k :| 0 <= k < |edges| && edges[k] == e;
    }
  }

  /** The positions in a sequence of four distinct entries. */
  lemma Positions4(a: NodeId, b: NodeId, c: NodeId, d: NodeId)
    requires Distinct([a, b, c, d])
    ensures IndexOf([a, b, c, d], a) == 0 && IndexOf([a, b, c, d], b) == 1
    ensures IndexOf([a, b, c, d], c) == 2 && IndexOf([a, b, c, d], d) == 3
  {
    var s := [a, b, c, d];
    IndexOfDistinct(s, 0);
    IndexOfDistinct(s, 1);
    IndexOfDistinct(s, 2);
    IndexOfDistinct(s, 3);
  }

  /** The positions in a sequence of five distinct entries. */
  lemma Positions5(a: NodeId, b: NodeId, c: NodeId, d: NodeId, e: NodeId)
    requires Distinct([a, b, c, d, e])
    ensures IndexOf([a, b, c, d, e], a) == 0 && IndexOf([a, b, c, d, e], b) == 1
    ensures IndexOf([a, b, c, d, e], c) == 2 && IndexOf([a, b, c, d, e], d) == 3
    ensures IndexOf([a, b, c, d, e], e) == 4
  {
    var s := [a, b, c, d, e];
    IndexOfDistinct(s, 0);
    IndexOfDistinct(s, 1);
    IndexOfDistinct(s, 2);
    IndexOfDistinct(s, 3);
    IndexOfDistinct(s, 4);
  }

  lemma RotationPermutes(a: NodeId, b: NodeId, c: NodeId, d: NodeId, e: NodeId)
    ensures multiset([b, c, d, e, a]) == multiset([a, b, c, d, e])
  {
    assert [b, c, d, e, a] == [b, c, d, e] + [a] && [a, b, c, d, e] == [a] + [b, c, d, e];
  }

  /** A topological order of Simple DAG, so it has no cycle. */
  lemma SimpleDagSorted()
    ensures IsTopologicalOrder(["node-0", "node-1", "node-2", "node-3"], SimpleDag.nodes, SimpleDag.edges)
    ensures !HasCycle(SimpleDag.edges)
  {
    var order := ["node-0", "node-1", "node-2", "node-3"];
    SimpleDagWellFormed();
    Positions4("node-0", "node-1", "node-2", "node-3");
    RespectsEachEdge(order, SimpleDag.edges);
    OrderExcludesCycle(order, SimpleDag.edges);
  }

  lemma CoursePrerequisitesSorted()
    ensures IsTopologicalOrder(["node-0", "node-1", "node-2", "node-3", "node-4"], CoursePrerequisites.nodes, CoursePrerequisites.edges)
    ensures !HasCycle(CoursePrerequisites.edges)
  {
    var order := ["node-0", "node-1", "node-2", "node-3", "node-4"];
    CoursePrerequisitesWellFormed();
    Positions5("node-0", "node-1", "node-2", "node-3", "node-4");
    RespectsEachEdge(order, CoursePrerequisites.edges);
    OrderExcludesCycle(order, CoursePrerequisites.edges);
  }

  lemma BuildDependenciesRespects()
    ensures RespectsEdges(["node-1", "node-2", "node-3", "node-4", "node-0"], BuildDependencies.edges)
  {
    Positions5("node-1", "node-2", "node-3", "node-4", "node-0");
    RespectsEachEdge(["node-1", "node-2", "node-3", "node-4", "node-0"], BuildDependencies.edges);
  }

  lemma BuildDependenciesSorted()
    ensures IsTopologicalOrder(["node-1", "node-2", "node-3", "node-4", "node-0"], BuildDependencies.nodes, BuildDependencies.edges)
    ensures !HasCycle(BuildDependencies.edges)
  {
    var order := ["node-1", "node-2", "node-3", "node-4", "node-0"];
    BuildDependenciesRespects();
    BuildDependenciesWellFormed();
    RotationPermutes("node-0", "node-1", "node-2", "node-3", "node-4");
    OrderExcludesCycle(order, BuildDependencies.edges);
  }

  lemma LinearChainSorted()
    ensures IsTopologicalOrder(["node-0", "node-1", "node-2", "node-3", "node-4"], LinearChain.nodes, LinearChain.edges)
    ensures !HasCycle(LinearChain.edges)
  {
    var order := ["node-0", "node-1", "node-2", "node-3", "node-4"];
    LinearChainWellFormed();
    Positions5("node-0", "node-1", "node-2", "node-3", "node-4");
    RespectsEachEdge(order, LinearChain.edges);
    OrderExcludesCycle(order, LinearChain.edges);
  }

  /** node-0 → node-1 → node-2 → node-3 → node-0 is a cycle. */
  lemma CyclicGraphCycle()
    ensures IsCycle(CyclicGraph.edges, ["node-0", "node-1", "node-2", "node-3", "node-0"])
    ensures HasCycle(CyclicGraph.edges)
  {
    var edges := CyclicGraph.edges;
    EdgeInSucc(edges, 0);
    EdgeInSucc(edges, 1);
    EdgeInSucc(edges, 2);
    EdgeInSucc(edges, 3);
    ClosedWalk4(edges, "node-0", "node-1", "node-2", "node-3");
  }

  /** The target of an edge is a successor of its source. */
  lemma EdgeInSucc(edges: seq<Edge>, k: nat)
    requires k < |edges|
    ensures edges[k].target in Succ(edges, edges[k].source)
  {
    SuccIsEdges(edges, edges[k].source, edges[k].target);
  }

  lemma ClosedWalk4(edges: seq<Edge>, a: NodeId, b: NodeId, c: NodeId, d: NodeId)
    requires b in Succ(edges, a) && c in Succ(edges, b) && d in Succ(edges, c) && a in Succ(edges, d)
    ensures IsCycle(edges, [a, b, c, d, a]) && HasCycle(edges)
  {
    var p := [a, b, c, d, a];
    assert IsPath(edges, p) by {
      forall i | 0 <= i < |p| - 1 ensures p[i + 1] in Succ(edges, p[i]) {
        if i == 0 {} else if i == 1 {} else if i == 2 {} else {}
      }
    }
    assert IsCycle(edges, p);
  }

  /** The menu's `hasCycle` flag is right for every example. */
  lemma ExampleFlagsAreRight()
    ensures forall i :: 0 <= i < |Examples| ==> Examples[i].hasCycle == HasCycle(Examples[i].edges)
  {
    forall i | 0 <= i < |Examples| ensures Examples[i].hasCycle == HasCycle(Examples[i].edges) {
      if i == 0 {
        assert Examples[i] == SimpleDag;
        SimpleDagSorted();
      } else if i == 1 {
        assert Examples[i] == CoursePrerequisites;
        CoursePrerequisitesSorted();
      } else if i == 2 {
        assert Examples[i] == BuildDependencies;
        BuildDependenciesSorted();
      } else if i == 3 {
        assert Examples[i] == LinearChain;
        LinearChainSorted();
      } else {
        assert Examples[i] == CyclicGraph;
        CyclicGraphCycle();
      }
    }
  }

  // ------------------------------------------------------------ Kahn's seed

  /** `ZeroInDegree` read from the front. */
  lemma {:induction false} ZeroInDegreeFront(ids: seq<NodeId>, edges: seq<Edge>)
    requires ids != []
    ensures Kahn.ZeroInDegree(ids, edges) ==
      (if InDegree(edges, ids[0]) == 0 then [ids[0]] else []) + Kahn.ZeroInDegree(ids[1..], edges)
    decreases |ids|
  {
    if |ids| > 1 {
      var init := ids[..|ids| - 1];
      ZeroInDegreeFront(init, edges);
      assert init[1..] == ids[1..][..|ids[1..]| - 1];
    }
  }

  /** Kahn's seed for four nodes, given their in-degrees. */
  lemma Seed4(edges: seq<Edge>, a: NodeId, b: NodeId, c: NodeId, d: NodeId)
    ensures Kahn.ZeroInDegree([a, b, c, d], edges) ==
      (if InDegree(edges, a) == 0 then [a] else []) + (if InDegree(edges, b) == 0 then [b] else []) +
      (if InDegree(edges, c) == 0 then [c] else []) + (if InDegree(edges, d) == 0 then [d] else [])
  {
    var ids := [a, b, c, d];
    ZeroInDegreeFront(ids, edges);
    ZeroInDegreeFront(ids[1..], edges);
    ZeroInDegreeFront(ids[2..], edges);
    ZeroInDegreeFront(ids[3..], edges);
    assert ids[1..][1..] == ids[2..] && ids[2..][1..] == ids[3..] && ids[3..][1..] == [];
  }

  // ------------------------------------------------------------ Simple DAG

  /** A = 0, B = 0, C = 1, D = 2; Kahn's queue starts as [node-0, node-1]. */
  lemma SimpleDagInDegrees()
    ensures Kahn.InitialInDegrees(SimpleDag.nodes, SimpleDag.edges) == map["node-0" := 0, "node-1" := 0, "node-2" := 1, "node-3" := 2]
    ensures Kahn.ZeroInDegree(Ids(SimpleDag.nodes), SimpleDag.edges) == ["node-0", "node-1"]
  {
    var edges := SimpleDag.edges;
    SimpleDagWellFormed();
    InDegreeHits(edges, "node-0");
    InDegreeHits(edges, "node-1");
    InDegreeHits(edges, "node-2");
    InDegreeHits(edges, "node-3");
    assert Elems(Ids(SimpleDag.nodes)) == {"node-0", "node-1", "node-2", "node-3"};
    Seed4(edges, "node-0", "node-1", "node-2", "node-3");
  }

  // ------------------------------------------------------------ Linear Chain

  /** Five entries whose first positions ascend fill a sequence of length 5 in
      that order. */
  lemma AscendingPositions(order: seq<NodeId>, a: NodeId, b: NodeId, c: NodeId, d: NodeId, e: NodeId)
    requires |order| == 5 && a in order && b in order && c in order && d in order && e in order
    requires IndexOf(order, a) < IndexOf(order, b) < IndexOf(order, c) < IndexOf(order, d) < IndexOf(order, e)
    ensures order == [a, b, c, d, e]
  {
    assert IndexOf(order, a) == 0 && IndexOf(order, b) == 1 && IndexOf(order, c) == 2;
    assert IndexOf(order, d) == 3 && IndexOf(order, e) == 4;
    assert order[0] == a && order[1] == b && order[2] == c && order[3] == d && order[4] == e;
  }

  /** Every entry of a permutation of five ids is one of them, and there are five. */
  lemma FiveEntries(order: seq<NodeId>, a: NodeId, b: NodeId, c: NodeId, d: NodeId, e: NodeId)
    requires multiset(order) == multiset([a, b, c, d, e])
    ensures |order| == 5 && a in order && b in order && c in order && d in order && e in order
  {
    assert |order| == |multiset(order)|;
    assert a in multiset(order) && b in multiset(order) && c in multiset(order);
    assert d in multiset(order) && e in multiset(order);
  }

  /** node-0 … node-4 is the one topological order of Linear Chain. */
  lemma LinearChainOnlyOrder(order: seq<NodeId>)
    ensures IsTopologicalOrder(order, LinearChain.nodes, LinearChain.edges) <==> order == ["node-0", "node-1", "node-2", "node-3", "node-4"]
  {
    LinearChainSorted();
    if IsTopologicalOrder(order, LinearChain.nodes, LinearChain.edges) {
      var edges := LinearChain.edges;
      LinearChainWellFormed();
      FiveEntries(order, "node-0", "node-1", "node-2", "node-3", "node-4");
      assert edges[0] in edges && edges[1] in edges && edges[2] in edges && edges[3] in edges;
      AscendingPositions(order, "node-0", "node-1", "node-2", "node-3", "node-4");
    }
  }

  // ------------------------------------------------------------ Build Dependencies

  /** Of five distinct entries of a sequence of length 5, one whose first
      position is above those of the other four is the last entry. */
  lemma AboveTheRest(order: seq<NodeId>, m: NodeId, a: NodeId, b: NodeId, c: NodeId, d: NodeId)
    requires |order| == 5 && m in order && a in order && b in order && c in order && d in order
    requires Distinct([m, a, b, c, d])
    requires IndexOf(order, a) < IndexOf(order, m) && IndexOf(order, b) < IndexOf(order, m)
    requires IndexOf(order, c) < IndexOf(order, m) && IndexOf(order, d) < IndexOf(order, m)
    ensures order[4] == m
  {
    var im, ia, ib, ic, id := IndexOf(order, m), IndexOf(order, a), IndexOf(order, b), IndexOf(order, c), IndexOf(order, d);
    assert [m, a, b, c, d][1] == a && [m, a, b, c, d][2] == b && [m, a, b, c, d][3] == c && [m, a, b, c, d][4] == d;
    assert ia != ib && ia != ic && ia != id && ib != ic && ib != id && ic != id by {
      assert order[ia] == a && order[ib] == b && order[ic] == c && order[id] == d;
    }
    FourBelow(im, ia, ib, ic, id);
  }

  /** Four distinct naturals below `m < 5` force `m == 4`. */
  lemma FourBelow(m: int, a: int, b: int, c: int, d: int)
    requires 0 <= a < m && 0 <= b < m && 0 <= c < m && 0 <= d < m && m < 5
    requires a != b && a != c && a != d && b != c && b != d && c != d
    ensures m == 4
  {
  }

  /** main (node-0) waits for two nodes and comes last in every topological
      order. */
  lemma MainComesLast(order: seq<NodeId>)
    requires IsTopologicalOrder(order, BuildDependencies.nodes, BuildDependencies.edges)
    ensures InDegree(BuildDependencies.edges, "node-0") == 2
    ensures |order| == 5 && order[4] == "node-0"
  {
    var edges := BuildDependencies.edges;
    InDegreeHits(edges, "node-0");
    BuildDependenciesWellFormed();
    FiveEntries(order, "node-0", "node-1", "node-2", "node-3", "node-4");
    assert edges[0] in edges && edges[1] in edges && edges[2] in edges && edges[3] in edges && edges[4] in edges;
    AboveTheRest(order, "node-0", "node-1", "node-2", "node-3", "node-4");
  }

  // ------------------------------------------------------------ Cyclic Graph

  /** Every node of the cyclic example has in-degree 1, so Kahn's queue starts
      empty. */
  lemma CyclicGraphInDegrees()
    ensures forall v :: v in Ids(CyclicGraph.nodes) ==> InDegree(CyclicGraph.edges, v) == 1
    ensures Kahn.ZeroInDegree(Ids(CyclicGraph.nodes), CyclicGraph.edges) == []
  {
    var edges := CyclicGraph.edges;
    CyclicGraphWellFormed();
    InDegreeHits(edges, "node-0");
    InDegreeHits(edges, "node-1");
    InDegreeHits(edges, "node-2");
    InDegreeHits(edges, "node-3");
    Seed4(edges, "node-0", "node-1", "node-2", "node-3");
  }

  /** Kahn's algorithm on the cyclic example processes none of its four nodes
      and ends with the cycle report. */
  method CyclicGraphKahn() returns (steps: seq<Step>)
    ensures |steps| >= 2 && FinalResult(steps) == []
    ensures steps[|steps| - 1] == Step(Complete, None, None, None, None, Some([]), Some(Kahn.LineCycle))
  {
    CyclicGraphWellFormed();
    steps := Kahn.KahnsAlgorithm(CyclicGraph.nodes, CyclicGraph.edges);
    NothingSorted(FinalResult(steps));
  }

  /** No node of the cyclic example can start a sorted prefix. */
  lemma NothingSorted(r: seq<NodeId>)
    requires PrefixRespectsEdges(r, CyclicGraph.edges) && Elems(r) <= Elems(Ids(CyclicGraph.nodes))
    ensures r == []
  {
    if r != [] {
      CyclicGraphInDegrees();
      FirstWithin(r, Ids(CyclicGraph.nodes));
      NoFirstNode(CyclicGraph.edges, r);
      assert false;
    }
  }

  lemma FirstWithin(r: seq<NodeId>, ids: seq<NodeId>)
    requires r != [] && Elems(r) <= Elems(ids)
    ensures r[0] in ids
  {
    assert r[0] in Elems(r);
  }

  /** The first node of a sorted prefix has no incoming edge. */
  lemma NoFirstNode(edges: seq<Edge>, r: seq<NodeId>)
    requires PrefixRespectsEdges(r, edges) && r != []
    ensures InDegree(edges, r[0]) == 0
  {
    forall k | 0 <= k < |edges| ensures edges[k].target != r[0] {
      if edges[k].target == r[0] {
        assert false;
      }
    }
    NoEdgeInto(edges, r[0]);
  }

  /** A node no edge ends at has in-degree 0. */
  lemma {:induction false} NoEdgeInto(edges: seq<Edge>, v: NodeId)
    requires forall k :: 0 <= k < |edges| ==> edges[k].target != v
    ensures InDegree(edges, v) == 0
    decreases |edges|
  {
    if edges != [] {
      NoEdgeInto(edges[..|edges| - 1], v);
    }
  }
}
