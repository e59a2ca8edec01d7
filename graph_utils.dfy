/** src/utils/graphUtils.ts: in-degree calculation, the three-state
    depth-first cycle check, and the random DAG generator (with its random
    draws taken as parameters). */
module GraphUtils {
  import opened Seqs
  import opened Graph
  import opened Strings

  // ------------------------------------------------------------ calculateInDegrees

  /** Targets of all edges: the keys `inDegrees[edge.target]` may add. */
  function Targets(edges: seq<Edge>): set<NodeId> {
    set e | e in edges :: e.target
  }

  /** Every node id maps to 0, then each edge adds one to its target's
      entry; a target that is not a node id gets an entry of its own. */
  method CalculateInDegrees(nodes: seq<Node>, edges: seq<Edge>) returns (inDegrees: map<NodeId, int>)
    ensures inDegrees.Keys == Elems(Ids(nodes)) + Targets(edges)
    ensures forall v :: v in inDegrees ==> inDegrees[v] == InDegree(edges, v)
  {
    inDegrees := map[];
    for i := 0 to |nodes|
      invariant inDegrees.Keys == Elems(Ids(nodes)[..i])
      invariant forall v :: v in inDegrees ==> inDegrees[v] == 0
    {
      assert Ids(nodes)[..i + 1] == Ids(nodes)[..i] + [nodes[i].id];
      inDegrees := inDegrees[nodes[i].id := 0];
    }
    assert Ids(nodes)[..|nodes|] == Ids(nodes);
    for i := 0 to |edges|
      invariant inDegrees.Keys == Elems(Ids(nodes)) + Targets(edges[..i])
      invariant forall v :: v in inDegrees ==> inDegrees[v] == InDegree(edges[..i], v)
    {
      var target := edges[i].target;
      assert edges[..i + 1] == edges[..i] + [edges[i]];
      if target !in inDegrees {
        UnseenTargetHasNoEdges(edges[..i], target);
      }
      forall v ensures InDegree(edges[..i + 1], v) == InDegree(edges[..i], v) + (if target == v then 1 else 0) {
        InDegreePrefix(edges, i, v);
      }
      inDegrees := inDegrees[target := (if target in inDegrees then inDegrees[target] else 0) + 1];
    }
    assert edges[..|edges|] == edges;
  }

  lemma {:induction false} UnseenTargetHasNoEdges(edges: seq<Edge>, v: NodeId)
    requires v !in Targets(edges)
    ensures InDegree(edges, v) == 0
    decreases |edges|
  {
    if edges != [] {
      var init := edges[..|edges| - 1];
      assert edges[|edges| - 1] in edges;
      assert Targets(init) <= Targets(edges) by {
        forall e | e in init ensures e in edges { }
      }
      UnseenTargetHasNoEdges(init, v);
    }
  }

  // ------------------------------------------------------------ adjacency lists

  /** `adjList` as built at the top of detectCycle and dfsTopologicalSort:
      one list per node id, each edge pushed onto its source's list when the
      source is a node id. */
  method BuildAdjacency(nodes: seq<Node>, edges: seq<Edge>) returns (adjList: map<NodeId, seq<NodeId>>)
    ensures adjList.Keys == Elems(Ids(nodes))
    ensures forall u :: u in adjList ==> adjList[u] == Succ(edges, u)
  {
    adjList := map[];
    for i := 0 to |nodes|
      invariant adjList.Keys == Elems(Ids(nodes)[..i])
      invariant forall u :: u in adjList ==> adjList[u] == []
    {
      assert Ids(nodes)[..i + 1] == Ids(nodes)[..i] + [nodes[i].id];
      adjList := adjList[nodes[i].id := []];
    }
    assert Ids(nodes)[..|nodes|] == Ids(nodes);
    for i := 0 to |edges|
      invariant adjList.Keys == Elems(Ids(nodes))
      invariant forall u :: u in adjList ==> adjList[u] == Succ(edges[..i], u)
    {
      var source := edges[i].source;
      forall u ensures Succ(edges[..i + 1], u) ==
                       Succ(edges[..i], u) + (if source == u then [edges[i].target] else []) {
        SuccPrefix(edges, i, u);
      }
      if source in adjList {
        adjList := adjList[source := adjList[source] + [edges[i].target]];
      }
    }
    assert edges[..|edges|] == edges;
  }

  // ------------------------------------------------------------ detectCycle

  /** The invariant of a three-state depth-first search: `path` is the
      recursion stack in call order and is a path of the graph; `finished`
      holds the nodes that are done (visited, off the stack) in finishing
      order, each after all of its successors. */
  ghost predicate SearchState(edges: seq<Edge>, ids: set<NodeId>, visited: set<NodeId>,
                              recursionStack: set<NodeId>, path: seq<NodeId>, finished: seq<NodeId>)
  {
    && visited <= ids
    && recursionStack == Elems(path) && Distinct(path) && IsPath(edges, path)
    && recursionStack <= visited
    && Distinct(finished) && Elems(finished) == visited - recursionStack
    && SuccessorsFinishFirst(finished, edges)
  }

  /** Entering an unvisited node along an edge from the top of the stack. */
  lemma EnterKeepsSearchState(edges: seq<Edge>, ids: set<NodeId>, visited: set<NodeId>,
                              recursionStack: set<NodeId>, path: seq<NodeId>, finished: seq<NodeId>, u: NodeId)
    requires SearchState(edges, ids, visited, recursionStack, path, finished)
    requires u in ids && u !in visited
    requires path == [] || u in Succ(edges, path[|path| - 1])
    ensures SearchState(edges, ids, visited + {u}, recursionStack + {u}, path + [u], finished)
  {
    var p := path + [u];
    assert Elems(p) == Elems(path) + {u};
    forall i | 0 <= i < |p| - 1 ensures p[i + 1] in Succ(edges, p[i]) {
      if i < |path| - 1 {
        assert p[i] == path[i] && p[i + 1] == path[i + 1];
      }
    }
  }

  /** Leaving a node whose successors are all done: it becomes done too. */
  lemma LeaveKeepsSearchState(edges: seq<Edge>, ids: set<NodeId>, visited: set<NodeId>,
                              recursionStack: set<NodeId>, path: seq<NodeId>, finished: seq<NodeId>, u: NodeId)
    requires SearchState(edges, ids, visited, recursionStack + {u}, path + [u], finished)
    requires u !in recursionStack && Distinct(path)
    requires forall v :: v in Succ(edges, u) ==> v in visited - (recursionStack + {u})
    ensures SearchState(edges, ids, visited, recursionStack, path, finished + [u])
  {
    assert (path + [u])[..|path|] == path;
    assert Elems(path + [u]) == Elems(path) + {u};
    assert IsPath(edges, path) by {
      forall i | 0 <= i < |path| - 1 ensures path[i + 1] in Succ(edges, path[i]) {
        assert path[i] == (path + [u])[i] && path[i + 1] == (path + [u])[i + 1];
      }
    }
    FinishAppend(finished, u, edges);
    assert Elems(finished + [u]) == Elems(finished) + {u};
  }

  /** Every node of `vs` is finished: visited and off the recursion stack. */
  ghost predicate Finished(vs: seq<NodeId>, done: set<NodeId>) {
    forall v :: v in vs ==> v in done
  }

  /** One more neighbour finished. */
  lemma FinishedNext(vs: seq<NodeId>, j: nat, done: set<NodeId>, done': set<NodeId>)
    requires j < |vs| && Finished(vs[..j], done) && done <= done' && vs[j] in done'
    ensures Finished(vs[..j + 1], done')
  {
    assert vs[..j + 1] == vs[..j] + [vs[j]];
  }

  /** The state `hasCycleDFS` closes over: the adjacency lists, the visited
      set and the recursion stack. `path` and `finished` are proof
      bookkeeping (see SearchState). */
  class CycleSearch {
    const edges: seq<Edge>
    ghost const ids: set<NodeId>
    const adjList: map<NodeId, seq<NodeId>>
    var visited: set<NodeId>
    var recursionStack: set<NodeId>
    ghost var path: seq<NodeId>
    ghost var finished: seq<NodeId>

    /** The adjacency lists are the successor lists of the node ids. */
    ghost predicate Wired() {
      && adjList.Keys == ids
      && (forall u :: u in adjList ==> adjList[u] == Succ(edges, u))
      && (forall u, v {:trigger v in Succ(edges, u)} :: u in ids && v in Succ(edges, u) ==> v in ids)
    }

    ghost predicate Valid()
      reads this
    {
      Wired() && SearchState(edges, ids, visited, recursionStack, path, finished)
    }

    constructor (edges: seq<Edge>, adjList: map<NodeId, seq<NodeId>>, ghost ids: set<NodeId>)
      requires adjList.Keys == ids
      requires forall u :: u in adjList ==> adjList[u] == Succ(edges, u)
      requires forall u, v {:trigger v in Succ(edges, u)} :: u in ids && v in Succ(edges, u) ==> v in ids
      ensures Valid()
      ensures this.edges == edges && this.ids == ids
      ensures visited == {} && recursionStack == {} && path == [] && finished == []
    {
      this.edges := edges;
      this.ids := ids;
      this.adjList := adjList;
      visited := {};
      recursionStack := {};
      path := [];
      finished := [];
    }

    /** hasCycleDFS: true as soon as some edge reaches a node on the recursion
        stack; false once every neighbour is searched, leaving the node done. */
    method HasCycleDfs(nodeId: NodeId) returns (cyclic: bool)
      requires Valid()
      requires nodeId in ids && nodeId !in visited
      requires path == [] || nodeId in Succ(edges, path[|path| - 1])
      modifies this
      decreases ids - visited
      ensures Valid()
      ensures old(visited) <= visited
      ensures cyclic ==> HasCycle(edges)
      ensures !cyclic ==> nodeId in visited && path == old(path) && recursionStack == old(recursionStack)
    {
      EnterKeepsSearchState(edges, ids, visited, recursionStack, path, finished, nodeId);
      visited := visited + {nodeId};
      recursionStack := recursionStack + {nodeId};
      path := path + [nodeId];
      var neighbors := adjList[nodeId];
      for j := 0 to |neighbors|
        invariant Valid()
        invariant old(visited) + {nodeId} <= visited
        invariant path == old(path) + [nodeId] && recursionStack == old(recursionStack) + {nodeId}
        invariant Finished(neighbors[..j], visited - recursionStack)
      {
        var neighbor := neighbors[j];
        assert neighbor in Succ(edges, nodeId);
        ghost var before := visited - recursionStack;
        if neighbor !in visited {
          cyclic := HasCycleDfs(neighbor);
          if cyclic {
            return;
          }
        } else if neighbor in recursionStack {
          BackEdgeCycle(edges, path, neighbor);
          return true;
        }
        FinishedNext(neighbors, j, before, visited - recursionStack);
      }
      assert neighbors[..|neighbors|] == neighbors;
      LeaveKeepsSearchState(edges, ids, visited, old(recursionStack), old(path), finished, nodeId);
      recursionStack := recursionStack - {nodeId};
      path := old(path);
      finished := finished + [nodeId];
      return false;
    }
  }

  /** Appending a node all of whose successors are already finished keeps the
      finishing order closed. */
  lemma FinishAppend(finished: seq<NodeId>, u: NodeId, edges: seq<Edge>)
    requires SuccessorsFinishFirst(finished, edges)
    requires forall v :: v in Succ(edges, u) ==> v in finished
    ensures SuccessorsFinishFirst(finished + [u], edges)
  {
    var f := finished + [u];
    forall i, v | 0 <= i < |f| && v in Succ(edges, f[i])
      ensures v in f[..i]
    {
      if i < |finished| {
        assert f[..i] == finished[..i];
      } else {
        assert f[..i] == finished;
      }
    }
  }

  /** detectCycle: a search from every node not yet visited, so that a cycle
      in any component is found. */
  method DetectCycle(nodes: seq<Node>, edges: seq<Edge>) returns (cyclic: bool)
    requires WellFormed(nodes, edges)
    ensures cyclic == HasCycle(edges)
  {
    var adjList := BuildAdjacency(nodes, edges);
    forall u, v | u in Elems(Ids(nodes)) && v in Succ(edges, u)
      ensures v in Elems(Ids(nodes))
    {
      SuccWithin(nodes, edges, u, v);
    }
    var search := new CycleSearch(edges, adjList, Elems(Ids(nodes)));
    for i := 0 to |nodes|
      invariant search.Valid() && search.edges == edges && search.ids == Elems(Ids(nodes))
      invariant search.path == [] && search.recursionStack == {}
      invariant forall k :: 0 <= k < i ==> nodes[k].id in search.visited
    {
      if nodes[i].id !in search.visited {
        cyclic := search.HasCycleDfs(nodes[i].id);
        if cyclic {
          return;
        }
      }
    }
    // every node is done: the finishing order read backwards sorts the graph
    var finished := search.finished;
    assert Elems(finished) == Elems(Ids(nodes)) by {
      forall x | x in Elems(Ids(nodes)) ensures x in search.visited {
        var k :| 0 <= k < |nodes| && Ids(nodes)[k] == x;
      }
    }
    ReversedFinishingIsTopological(finished, nodes, edges);
    OrderExcludesCycle(Reverse(finished), edges);
    return false;
  }

  // ------------------------------------------------------------ generateRandomDAG

  /** `node-${i}`. */
  function NodeName(i: nat): NodeId {
    "node-" + NatToString(i)
  }

  /** `String.fromCharCode(65 + i)`: A, B, C, ... */
  function NodeLabel(i: nat): string {
    [CharFromCode(65 + i)]
  }

  /** `${sourceIdx}-${targetIdx}`: the key of the set of created edges. */
  function EdgeKey(s: nat, t: nat): string {
    NatToString(s) + "-" + NatToString(t)
  }

  /** The edge the generator creates for an index pair. */
  function EdgeOf(p: (nat, nat)): Edge {
    Edge("edge-" + EdgeKey(p.0, p.1), NodeName(p.0), NodeName(p.1))
  }

  /** A value of `Math.random()`. */
  predicate IsUnit(r: real) {
    0.0 <= r < 1.0
  }

  /** `Math.floor(r * k)` for a random `r` lies in [0, k), or is 0 when k is 0. */
  lemma FloorScaled(r: real, k: nat)
    requires IsUnit(r)
    ensures 0 <= (r * k as real).Floor
    ensures (k == 0 ==> (r * k as real).Floor == 0) && (k > 0 ==> (r * k as real).Floor < k)
  {
    ScaleBelow(r, k as real);
  }

  /** Scaling by a non-negative `c` keeps a unit value below `c`. */
  lemma ScaleBelow(r: real, c: real)
    requires IsUnit(r) && 0.0 <= c
    ensures 0.0 <= r * c && (0.0 < c ==> r * c < c)
  {
    assert c - r * c == (1.0 - r) * c;
  }

  /** The index pair one edge draw yields: the source uniformly below
      nodeCount - 1, the target uniformly above the source. */
  function DrawPair(nodeCount: nat, d: (real, real)): (p: (nat, nat))
    requires nodeCount >= 1 && IsUnit(d.0) && IsUnit(d.1)
    ensures p.0 < p.1
    ensures nodeCount >= 2 ==> p.1 < nodeCount
    ensures nodeCount == 1 ==> p == (0, 1)
  {
    FloorScaled(d.0, nodeCount - 1);
    var sourceIdx := (d.0 * (nodeCount - 1) as real).Floor;
    FloorScaled(d.1, nodeCount - sourceIdx - 1);
    var targetIdx := sourceIdx + 1 + (d.1 * (nodeCount - sourceIdx - 1) as real).Floor;
    (sourceIdx, targetIdx)
  }

  /** The index pairs of all draws, duplicates included. */
  function DrawnPairs(nodeCount: nat, draws: seq<(real, real)>): (ps: seq<(nat, nat)>)
    requires nodeCount >= 1 || draws == []
    requires forall i :: 0 <= i < |draws| ==> IsUnit(draws[i].0) && IsUnit(draws[i].1)
    ensures |ps| == |draws|
  {
    seq(|draws|, i requires 0 <= i < |draws| => DrawPair(nodeCount, draws[i]))
  }

  lemma NodeNameInjective(a: nat, b: nat)
    requires NodeName(a) == NodeName(b)
    ensures a == b
  {
    assert NatToString(a) == NodeName(a)[5..] == NodeName(b)[5..] == NatToString(b);
    NatToStringInjective(a, b);
  }

  lemma EdgeKeyInjective(s: nat, t: nat, s': nat, t': nat)
    requires EdgeKey(s, t) == EdgeKey(s', t')
    ensures s == s' && t == t'
  {
    NatToStringDigits(s);
    NatToStringDigits(t);
    NatToStringDigits(s');
    NatToStringDigits(t');
    DashJoinInjective(NatToString(s), NatToString(t), NatToString(s'), NatToString(t'));
    NatToStringInjective(s, s');
    NatToStringInjective(t, t');
  }

  /** Nodes node-0 ... node-(n-1) labelled A, B, C, ...; then
      floor(1.5 n) edge draws, each adding the edge between the drawn indices
      unless that pair was drawn before. `draws` stands for the successive
      pairs of `Math.random()` values; `pairs` names the index pair of each
      edge. Every edge points from a lower to a higher index, so the node
      order is a topological order: the graph is acyclic. With a single node
      the one draw yields an edge to the absent node-1. */
  method GenerateRandomDag(nodeCount: nat, draws: seq<(real, real)>)
    returns (nodes: seq<Node>, edges: seq<Edge>, ghost pairs: seq<(nat, nat)>)
    requires |draws| == nodeCount + nodeCount / 2
    requires forall i :: 0 <= i < |draws| ==> IsUnit(draws[i].0) && IsUnit(draws[i].1)
    ensures Numbered(nodes, nodeCount)
    ensures pairs == Dedup(DrawnPairs(nodeCount, draws)) && Mirrors(edges, pairs)
    ensures |edges| <= nodeCount + nodeCount / 2
    ensures forall i, j :: 0 <= i < j < |edges| ==> edges[i].id != edges[j].id
    ensures forall k :: 0 <= k < |pairs| ==> PairInRange(nodeCount, pairs[k])
    ensures nodeCount == 1 ==> edges == [EdgeOf((0, 1))]
    ensures nodeCount != 1 ==>
      WellFormed(nodes, edges) && IsTopologicalOrder(Ids(nodes), nodes, edges) && !HasCycle(edges)
  {
    nodes := [];
    for i := 0 to nodeCount
      invariant Numbered(nodes, i)
    {
      NumberedNext(nodes, i);
      nodes := nodes + [Node(NodeName(i), NodeLabel(i))];
    }

    var edgeCount := nodeCount + nodeCount / 2;
    var createdEdges: set<string> := {};
    edges := [];
    pairs := [];
    assert nodeCount == 0 ==> edgeCount == 0;
    ghost var drawn := DrawnPairs(nodeCount, draws);
    for i := 0 to edgeCount
      invariant Mirrors(edges, pairs) && pairs == Dedup(drawn[..i])
      invariant createdEdges == KeySet(pairs)
    {
      var (sourceIdx, targetIdx) := DrawPair(nodeCount, draws[i]);
      var edgeKey := EdgeKey(sourceIdx, targetIdx);
      DrawRound(nodeCount, draws, i, pairs, createdEdges);
      if edgeKey !in createdEdges {
        createdEdges := createdEdges + {edgeKey};
        MirrorsNext(edges, pairs, (sourceIdx, targetIdx));
        edges := edges + [Edge("edge-" + edgeKey, NodeName(sourceIdx), NodeName(targetIdx))];
        pairs := pairs + [(sourceIdx, targetIdx)];
      }
    }
    assert drawn[..edgeCount] == drawn;
    GeneratedPairs(nodeCount, draws, edges, pairs);
    if nodeCount != 1 {
      IndexOrderSortsGenerated(nodeCount, nodes, edges, pairs);
    }
  }

  /** The first `n` generated nodes: node `i` is `node-i`, labelled by the
      `i`-th letter. */
  ghost predicate Numbered(nodes: seq<Node>, n: nat) {
    |nodes| == n && forall i {:trigger nodes[i]} :: 0 <= i < n ==> nodes[i] == Node(NodeName(i), NodeLabel(i))
  }

  /** One more generated node. */
  lemma NumberedNext(nodes: seq<Node>, n: nat)
    requires Numbered(nodes, n)
    ensures Numbered(nodes + [Node(NodeName(n), NodeLabel(n))], n + 1)
  {
  }

  /** The edges are the index pairs, one for one, in order. */
  ghost predicate Mirrors(edges: seq<Edge>, pairs: seq<(nat, nat)>) {
    |edges| == |pairs| && forall k :: 0 <= k < |edges| ==> edges[k] == EdgeOf(pairs[k])
  }

  /** One more pair and its edge. */
  lemma MirrorsNext(edges: seq<Edge>, pairs: seq<(nat, nat)>, p: (nat, nat))
    requires Mirrors(edges, pairs)
    ensures Mirrors(edges + [EdgeOf(p)], pairs + [p])
  {
  }

  /** One draw of the edge loop: a pair whose key was already created is
      a duplicate and is skipped; otherwise it is new and kept. */
  lemma DrawRound(nodeCount: nat, draws: seq<(real, real)>, i: nat, pairs: seq<(nat, nat)>, created: set<string>)
    requires nodeCount >= 1 && i < |draws|
    requires forall i :: 0 <= i < |draws| ==> IsUnit(draws[i].0) && IsUnit(draws[i].1)
    requires pairs == Dedup(DrawnPairs(nodeCount, draws)[..i]) && created == KeySet(pairs)
    ensures var p := DrawPair(nodeCount, draws[i]);
      && (EdgeKey(p.0, p.1) in created ==> pairs == Dedup(DrawnPairs(nodeCount, draws)[..i + 1]))
      && (EdgeKey(p.0, p.1) !in created ==>
            pairs + [p] == Dedup(DrawnPairs(nodeCount, draws)[..i + 1])
            && created + {EdgeKey(p.0, p.1)} == KeySet(pairs + [p]))
  {
    var p := DrawPair(nodeCount, draws[i]);
    DedupStep(DrawnPairs(nodeCount, draws), i);
    KeySetStep(pairs, p.0, p.1);
  }

  lemma GeneratedPairs(nodeCount: nat, draws: seq<(real, real)>, edges: seq<Edge>, pairs: seq<(nat, nat)>)
    requires |draws| == nodeCount + nodeCount / 2
    requires forall i :: 0 <= i < |draws| ==> IsUnit(draws[i].0) && IsUnit(draws[i].1)
    requires pairs == Dedup(DrawnPairs(nodeCount, draws)) && Mirrors(edges, pairs)
    ensures |edges| <= nodeCount + nodeCount / 2
    ensures forall i, j :: 0 <= i < j < |edges| ==> edges[i].id != edges[j].id
    ensures forall k :: 0 <= k < |pairs| ==> PairInRange(nodeCount, pairs[k])
    ensures nodeCount == 1 ==> edges == [EdgeOf((0, 1))]
  {
    if nodeCount >= 1 {
      DrawnPairsInRange(nodeCount, draws);
    }
    EdgeIdsDistinct(edges, pairs);
    if nodeCount == 1 {
      var drawn := DrawnPairs(nodeCount, draws);
      assert drawn == drawn[..0] + [drawn[0]] && drawn[..0] == [];
    }
  }


  /** Where one drawn pair can lie. */
  predicate PairInRange(nodeCount: nat, p: (nat, nat)) {
    p.0 < p.1 && (nodeCount >= 2 ==> p.1 < nodeCount) && (nodeCount == 1 ==> p == (0, 1))
  }

  /** Every pair kept from the draws lies in range. */
  lemma DrawnPairsInRange(nodeCount: nat, draws: seq<(real, real)>)
    requires nodeCount >= 1
    requires forall i :: 0 <= i < |draws| ==> IsUnit(draws[i].0) && IsUnit(draws[i].1)
    ensures forall k :: 0 <= k < |Dedup(DrawnPairs(nodeCount, draws))| ==>
      PairInRange(nodeCount, Dedup(DrawnPairs(nodeCount, draws))[k])
  {
    var drawn := DrawnPairs(nodeCount, draws);
    var pairs := Dedup(drawn);
    forall k | 0 <= k < |pairs| ensures PairInRange(nodeCount, pairs[k]) {
      assert pairs[k] in Elems(drawn);
    }
  }

  /** The keys recorded for a list of index pairs. */
  function KeySet(pairs: seq<(nat, nat)>): set<string> {
    if pairs == [] then {}
    else KeySet(pairs[..|pairs| - 1]) + {EdgeKey(pairs[|pairs| - 1].0, pairs[|pairs| - 1].1)}
  }

  /** The key set answers "was this pair created before?" exactly. */
  lemma {:induction false} KeySetMember(pairs: seq<(nat, nat)>, s: nat, t: nat)
    ensures EdgeKey(s, t) in KeySet(pairs) <==> (s, t) in pairs
    decreases |pairs|
  {
    if pairs != [] {
      var init, last := pairs[..|pairs| - 1], pairs[|pairs| - 1];
      assert pairs == init + [last];
      KeySetMember(init, s, t);
      if EdgeKey(s, t) == EdgeKey(last.0, last.1) {
        EdgeKeyInjective(s, t, last.0, last.1);
      }
    }
  }

  lemma KeySetStep(pairs: seq<(nat, nat)>, s: nat, t: nat)
    ensures EdgeKey(s, t) in KeySet(pairs) <==> (s, t) in pairs
    ensures KeySet(pairs + [(s, t)]) == KeySet(pairs) + {EdgeKey(s, t)}
  {
    KeySetMember(pairs, s, t);
    assert (pairs + [(s, t)])[..|pairs|] == pairs;
  }

  /** Distinct index pairs give distinct edge ids. */
  lemma EdgeIdsDistinct(edges: seq<Edge>, pairs: seq<(nat, nat)>)
    requires Distinct(pairs) && Mirrors(edges, pairs)
    ensures forall i, j :: 0 <= i < j < |edges| ==> edges[i].id != edges[j].id
  {
    forall i, j | 0 <= i < j < |edges| ensures edges[i].id != edges[j].id {
      if edges[i].id == edges[j].id {
        assert EdgeKey(pairs[i].0, pairs[i].1) == edges[i].id[5..] == edges[j].id[5..] == EdgeKey(pairs[j].0, pairs[j].1);
        EdgeKeyInjective(pairs[i].0, pairs[i].1, pairs[j].0, pairs[j].1);
      }
    }
  }

  /** Node order sorts any edges that join a lower to a higher node index. */
  lemma IndexOrderSortsGenerated(nodeCount: nat, nodes: seq<Node>, edges: seq<Edge>, pairs: seq<(nat, nat)>)
    requires Numbered(nodes, nodeCount) && Mirrors(edges, pairs)
    requires forall k :: 0 <= k < |pairs| ==> pairs[k].0 < pairs[k].1 < nodeCount
    ensures WellFormed(nodes, edges) && IsTopologicalOrder(Ids(nodes), nodes, edges) && !HasCycle(edges)
  {
    var order := Ids(nodes);
    forall i, j | 0 <= i < j < |order| ensures order[i] != order[j] {
      if order[i] == order[j] {
        NodeNameInjective(i, j);
      }
    }
    forall e | e in edges
      ensures e.source in order && e.target in order && IndexOf(order, e.source) < IndexOf(order, e.target)
    {
      var k :| 0 <= k < |edges| && edges[k] == e;
      var (s, t) := pairs[k];
      assert order[s] == e.source && order[t] == e.target;
      IndexOfDistinct(order, s);
      IndexOfDistinct(order, t);
    }
    OrderExcludesCycle(order, edges);
  }
}
