/** The graph the engines work on (src/types.ts GraphNode, GraphEdge) and the
    specification notions the engines are proved against: successor lists in
    edge order, in-degrees, paths and cycles, and topological orders. */
module Graph {
  import opened Seqs

  type NodeId = string

  /** A graph node as the engines see it: identity and display label (`text`,
      since `label` is a Dafny keyword).
      Visit state, in-degree and position belong to the view (module App). */
  datatype Node = Node(id: NodeId, text: string)

  /** A directed edge: `source` must precede `target`. */
  datatype Edge = Edge(id: string, source: NodeId, target: NodeId)

  /** The node ids in input order. */
  function Ids(nodes: seq<Node>): (ids: seq<NodeId>)
    ensures |ids| == |nodes|
    ensures forall i :: 0 <= i < |nodes| ==> ids[i] == nodes[i].id
  {
    seq(|nodes|, i requires 0 <= i < |nodes| => nodes[i].id)
  }

  /** Node ids are unique and every edge joins two existing nodes. */
  predicate WellFormed(nodes: seq<Node>, edges: seq<Edge>) {
    && Distinct(Ids(nodes))
    && forall e :: e in edges ==> e.source in Ids(nodes) && e.target in Ids(nodes)
  }

  /** The adjacency list of `u`: targets of the edges leaving `u`, in edge order
      (what `adjList.get(u)` holds after `edges.forEach(... push(edge.target))`). */
  function Succ(edges: seq<Edge>, u: NodeId): seq<NodeId> {
    if edges == [] then []
    else
      var e := edges[|edges| - 1];
      Succ(edges[..|edges| - 1], u) + (if e.source == u then [e.target] else [])
  }

  /** Some edge goes from `u` to `v`. */
  ghost predicate HasEdge(edges: seq<Edge>, u: NodeId, v: NodeId) {
    exists k :: 0 <= k < |edges| && edges[k].source == u && edges[k].target == v
  }

  /** Number of edges that end at `v`. */
  function InDegree(edges: seq<Edge>, v: NodeId): nat {
    if edges == [] then 0
    else InDegree(edges[..|edges| - 1], v) + (if edges[|edges| - 1].target == v then 1 else 0)
  }

  /** Number of edges that end at `v` and start outside `done`: the in-degree
      Kahn's algorithm keeps for `v` once the nodes of `done` are removed. */
  function Pending(edges: seq<Edge>, done: set<NodeId>, v: NodeId): nat {
    if edges == [] then 0
    else
      var e := edges[|edges| - 1];
      Pending(edges[..|edges| - 1], done, v) + (if e.target == v && e.source !in done then 1 else 0)
  }

  /** Consecutive entries of `p` are joined by edges. */
  ghost predicate IsPath(edges: seq<Edge>, p: seq<NodeId>) {
    forall i :: 0 <= i < |p| - 1 ==> p[i + 1] in Succ(edges, p[i])
  }

  /** A closed walk of at least one edge (a self-loop is one). */
  ghost predicate IsCycle(edges: seq<Edge>, p: seq<NodeId>) {
    |p| >= 2 && p[0] == p[|p| - 1] && IsPath(edges, p)
  }

  ghost predicate HasCycle(edges: seq<Edge>) {
    exists p :: IsCycle(edges, p)
  }

  /** Some cycle starts (and ends) at `w`. */
  ghost predicate OnCycle(edges: seq<Edge>, w: NodeId) {
    exists p :: IsCycle(edges, p) && p[0] == w
  }

  /** For every edge both ends occur in `order`, the source first. */
  ghost predicate RespectsEdges(order: seq<NodeId>, edges: seq<Edge>) {
    forall e :: e in edges ==>
      e.source in order && e.target in order && IndexOf(order, e.source) < IndexOf(order, e.target)
  }

  /** Every edge that ends at an entry of `order` starts at an earlier entry:
      `order` is a topologically sorted prefix of the graph. */
  ghost predicate PrefixRespectsEdges(order: seq<NodeId>, edges: seq<Edge>) {
    forall k, i :: 0 <= k < |edges| && 0 <= i < |order| && edges[k].target == order[i] ==>
      edges[k].source in order[..i]
  }

  /** Every successor of an entry of `finished` occurs before it: the shape
      of a depth-first finishing stack. */
  ghost predicate SuccessorsFinishFirst(finished: seq<NodeId>, edges: seq<Edge>) {
    forall i, v :: 0 <= i < |finished| && v in Succ(edges, finished[i]) ==> v in finished[..i]
  }

  /** A permutation of the node ids in which every edge points forward. */
  ghost predicate IsTopologicalOrder(order: seq<NodeId>, nodes: seq<Node>, edges: seq<Edge>) {
    multiset(order) == multiset(Ids(nodes)) && RespectsEdges(order, edges)
  }

  // ---------------------------------------------------------------- lemmas

  lemma SuccPrefix(edges: seq<Edge>, i: nat, u: NodeId)
    requires i < |edges|
    ensures Succ(edges[..i + 1], u) ==
            Succ(edges[..i], u) + (if edges[i].source == u then [edges[i].target] else [])
  {
    assert edges[..i + 1][..i] == edges[..i];
  }

  lemma InDegreePrefix(edges: seq<Edge>, i: nat, v: NodeId)
    requires i < |edges|
    ensures InDegree(edges[..i + 1], v) == InDegree(edges[..i], v) + (if edges[i].target == v then 1 else 0)
  {
    assert edges[..i + 1][..i] == edges[..i];
  }

  /** The successor list holds exactly the targets of the edges leaving `u`. */
  lemma {:induction false} SuccIsEdges(edges: seq<Edge>, u: NodeId, v: NodeId)
    ensures v in Succ(edges, u) <==> HasEdge(edges, u, v)
    decreases |edges|
  {
    if edges != [] {
      var init := edges[..|edges| - 1];
      SuccIsEdges(init, u, v);
      if HasEdge(init, u, v) {
        var k :| 0 <= k < |init| && init[k].source == u && init[k].target == v;
        assert edges[k] == init[k];
      }
      if HasEdge(edges, u, v) {
        var k :| 0 <= k < |edges| && edges[k].source == u && edges[k].target == v;
        if k < |init| {
          assert init[k] == edges[k];
        }
      }
    }
  }

  /** The targets of `u`'s successor list are edge targets. */
  lemma SuccWithin(nodes: seq<Node>, edges: seq<Edge>, u: NodeId, v: NodeId)
    requires WellFormed(nodes, edges) && v in Succ(edges, u)
    ensures v in Ids(nodes) && u in Ids(nodes)
  {
    SuccIsEdges(edges, u, v);
    var k :| 0 <= k < |edges| && edges[k].source == u && edges[k].target == v;
    assert edges[k] in edges;
  }

  /** Removing one more node `u` from the graph lowers the pending in-degree of
      `v` by the number of edges from `u` to `v`. */
  lemma {:induction false} PendingSplit(edges: seq<Edge>, done: set<NodeId>, u: NodeId, v: NodeId)
    requires u !in done
    ensures Pending(edges, done, v) == Pending(edges, done + {u}, v) + multiset(Succ(edges, u))[v]
    decreases |edges|
  {
    if edges != [] {
      PendingSplit(edges[..|edges| - 1], done, u, v);
    }
  }

  /** With nothing removed, the pending in-degree is the in-degree. */
  lemma {:induction false} PendingNothingDone(edges: seq<Edge>, v: NodeId)
    ensures Pending(edges, {}, v) == InDegree(edges, v)
    decreases |edges|
  {
    if edges != [] {
      PendingNothingDone(edges[..|edges| - 1], v);
    }
  }

  /** A pending in-degree of 0 means every edge into `v` starts in `done`. */
  lemma {:induction false} PendingZero(edges: seq<Edge>, done: set<NodeId>, v: NodeId)
    requires Pending(edges, done, v) == 0
    ensures forall k :: 0 <= k < |edges| && edges[k].target == v ==> edges[k].source in done
    decreases |edges|
  {
    if edges != [] {
      var init := edges[..|edges| - 1];
      PendingZero(init, done, v);
      forall k | 0 <= k < |edges| && edges[k].target == v
        ensures edges[k].source in done
      {
        if k < |init| {
          assert edges[k] == init[k];
        }
      }
    }
  }

  /** A positive pending in-degree names an edge into `v` from outside `done`. */
  lemma {:induction false} PendingWitness(edges: seq<Edge>, done: set<NodeId>, v: NodeId) returns (k: nat)
    requires Pending(edges, done, v) > 0
    ensures k < |edges| && edges[k].target == v && edges[k].source !in done
    decreases |edges|
  {
    var init := edges[..|edges| - 1];
    var e := edges[|edges| - 1];
    if e.target == v && e.source !in done {
      k := |edges| - 1;
    } else {
      k := PendingWitness(init, done, v);
      assert edges[k] == init[k];
    }
  }

  /** Along a path, positions in an edge-respecting order strictly increase. */
  lemma {:induction false} PathAscends(order: seq<NodeId>, edges: seq<Edge>, p: seq<NodeId>, i: nat)
    requires RespectsEdges(order, edges) && IsPath(edges, p) && 1 <= i < |p|
    ensures p[0] in order && p[i] in order && IndexOf(order, p[0]) < IndexOf(order, p[i])
  {
    SuccIsEdges(edges, p[i - 1], p[i]);
    var k :| 0 <= k < |edges| && edges[k].source == p[i - 1] && edges[k].target == p[i];
    assert edges[k] in edges;
    if i > 1 {
      PathAscends(order, edges, p, i - 1);
    }
  }

  /** A graph that has an edge-respecting order has no cycle. */
  lemma OrderExcludesCycle(order: seq<NodeId>, edges: seq<Edge>)
    requires RespectsEdges(order, edges)
    ensures !HasCycle(edges)
  {
    if HasCycle(edges) {
      var p :| IsCycle(edges, p);
      PathAscends(order, edges, p, |p| - 1);
      assert false;
    }
  }

  /** A path that reaches back to one of its own nodes closes a cycle
      (the depth-first back-edge to a node on the recursion stack). */
  lemma BackEdgeCycle(edges: seq<Edge>, path: seq<NodeId>, w: NodeId)
    requires IsPath(edges, path) && path != [] && w in path
    requires w in Succ(edges, path[|path| - 1])
    ensures OnCycle(edges, w) && HasCycle(edges)
  {
    var k := IndexOf(path, w);
    var c := path[k..] + [w];
    assert c[0] == w && c[|c| - 1] == w;
    forall i | 0 <= i < |c| - 1
      ensures c[i + 1] in Succ(edges, c[i])
    {
      if i < |c| - 2 {
        assert c[i] == path[k + i] && c[i + 1] == path[k + i + 1];
      }
    }
    assert IsCycle(edges, c);
  }

  /** Some edge into `x` starts inside `R`. */
  ghost predicate HasPredecessorIn(edges: seq<Edge>, R: set<NodeId>, x: NodeId) {
    exists u :: u in R && x in Succ(edges, u)
  }

  /** A walk ending at `v` with `n` edges that stays inside `R`, built by
      stepping back along predecessors. */
  lemma {:induction false} WalkBack(edges: seq<Edge>, R: set<NodeId>, v: NodeId, n: nat) returns (w: seq<NodeId>)
    requires v in R
    requires forall x {:trigger HasPredecessorIn(edges, R, x)} :: x in R ==> HasPredecessorIn(edges, R, x)
    ensures |w| == n + 1 && w[n] == v && IsPath(edges, w)
    ensures forall i :: 0 <= i < |w| ==> w[i] in R
    decreases n
  {
    if n == 0 {
      w := [v];
    } else {
      assert HasPredecessorIn(edges, R, v);
      var u :| u in R && v in Succ(edges, u);
      var w' := WalkBack(edges, R, u, n - 1);
      w := w' + [v];
      forall i | 0 <= i < |w| - 1
        ensures w[i + 1] in Succ(edges, w[i])
      {
        if i < |w'| - 1 {
          assert w[i] == w'[i] && w[i + 1] == w'[i + 1];
        }
      }
    }
  }

  /** A walk that repeats a node contains a cycle. */
  lemma RepeatCycle(edges: seq<Edge>, w: seq<NodeId>, i: nat, j: nat)
    requires IsPath(edges, w) && i < j < |w| && w[i] == w[j]
    ensures HasCycle(edges)
  {
    var c := w[i..j + 1];
    forall m | 0 <= m < |c| - 1
      ensures c[m + 1] in Succ(edges, c[m])
    {
      assert c[m] == w[i + m] && c[m + 1] == w[i + m + 1];
    }
    assert IsCycle(edges, c);
  }

  /** If every node of a non-empty set has a predecessor inside the set, the
      graph has a cycle (pigeonhole on a walk longer than the set). */
  lemma PredecessorsEverywhereCycle(edges: seq<Edge>, R: set<NodeId>)
    requires R != {}
    requires forall x {:trigger HasPredecessorIn(edges, R, x)} :: x in R ==> HasPredecessorIn(edges, R, x)
    ensures HasCycle(edges)
  {
    var v :| v in R;
    var w := WalkBack(edges, R, v, |R|);
    assert Elems(w) <= R;
    if Distinct(w) {
      DistinctWithin(w, R);
    } else {
      var i, j :| 0 <= i < j < |w| && w[i] == w[j];
      RepeatCycle(edges, w, i, j);
    }
  }

  /** A sorted prefix that contains every node is a topological order. */
  lemma PrefixOrderIsTopological(order: seq<NodeId>, nodes: seq<Node>, edges: seq<Edge>)
    requires WellFormed(nodes, edges) && Distinct(order) && Elems(order) == Elems(Ids(nodes))
    requires PrefixRespectsEdges(order, edges)
    ensures IsTopologicalOrder(order, nodes, edges)
  {
    SameElementsPermutation(order, Ids(nodes));
    forall e | e in edges
      ensures e.source in order && e.target in order && IndexOf(order, e.source) < IndexOf(order, e.target)
    {
      var k :| 0 <= k < |edges| && edges[k] == e;
      assert e.target in Elems(Ids(nodes)) && e.source in Elems(Ids(nodes));
      var t := IndexOf(order, e.target);
      assert e.source in order[..t];
      var s :| 0 <= s < t && order[..t][s] == e.source;
      IndexOfDistinct(order, s);
    }
  }

  /** A finishing stack that contains every node, read backwards, is a
      topological order. */
  lemma ReversedFinishingIsTopological(finished: seq<NodeId>, nodes: seq<Node>, edges: seq<Edge>)
    requires WellFormed(nodes, edges) && Distinct(finished) && Elems(finished) == Elems(Ids(nodes))
    requires SuccessorsFinishFirst(finished, edges)
    ensures IsTopologicalOrder(Reverse(finished), nodes, edges)
  {
    var r := Reverse(finished);
    var n := |finished|;
    ReverseKeeps(finished);
    forall k, i | 0 <= k < |edges| && 0 <= i < n && edges[k].target == r[i]
      ensures edges[k].source in r[..i]
    {
      var e := edges[k];
      assert e in edges;
      assert e.source in Elems(finished);
      var a :| 0 <= a < n && finished[a] == e.source;
      SuccIsEdges(edges, e.source, e.target);
      assert e.target in finished[..a];
      var b :| 0 <= b < a && finished[b] == e.target;
      assert r[n - 1 - b] == e.target;
      assert n - 1 - b == i;
      assert r[n - 1 - a] == e.source;
      assert r[..i][n - 1 - a] == e.source;
    }
    PrefixOrderIsTopological(r, nodes, edges);
  }
}
