# topovis: topological-sort engines and playback, in Dafny

topovis is a React application that animates topological sorting. The user
edits a directed graph, or loads one of five example graphs. Then one of two
engines runs over the graph:

- Kahn's algorithm, with a FIFO queue and an in-degree table;
- a depth-first sort, with a visited set, a recursion stack and a finishing
  stack.

Each engine records a log of steps. Every step carries a kind, the node it
concerns, and snapshots of the in-degrees, the queue or stack, and the
result so far. The player then walks a cursor over that log. It colours each
node unvisited, ready, processing or processed. It shows in-degree badges
and the topological order found so far.

This project models that core and proves what it promises:

- `seqs.dfy` (module `Seqs`): JavaScript's `indexOf`, `reverse` and `filter`,
  a dedup filter, and facts about sequences without repeats.
- `strings.dfy` (module `Strings`): the `${n}` decimal rendering and
  `String.fromCharCode`.
- `graph.dfy` (module `Graph`): nodes and edges, plus the notions the engines
  are proved against. These are successor lists in edge order, in-degrees,
  paths and cycles, and topological orders (permutations of the node ids in
  which every edge points forward).
- `steps.dfy` (module `Steps`): the step record of `src/types.ts`, plus the
  projections used to state log shapes.
- `graph_utils.dfy` (module `GraphUtils`): `calculateInDegrees`,
  `detectCycle` with its recursive `hasCycleDFS` (a class over the mutable
  sets), and `generateRandomDAG`. Its random draws are parameters.
- `kahn.dfy` (module `Kahn`): `kahnsAlgorithm`. It is proved to return a
  topological order exactly when the graph is acyclic, and to report a
  cycle otherwise. It is also proved to keep a strict FIFO queue. Its log
  is pinned down in these parts: the seed step and the complete step; the
  node named at each emission site, in order; the result each remove step
  carries; and every in-degree snapshot, which is the initial table less
  the decrements logged up to that step.
- `dfs.dfy` (module `Dfs`): `dfsTopologicalSort`. Its recursion threads a
  search record. It is proved to stop at a back edge exactly when the graph
  has a cycle, and otherwise to pop the reversed finishing stack as a
  topological order.
- `app.dfy` (module `App`): the playback controller of `src/App.tsx`, as a
  class over the React state. It covers applying a step, stepping forward
  and backward, reset, running the selected engine, the auto-play stop
  rule, deleting nodes and edges, and adding nodes.
- `example_graphs.dfy` (module `ExampleGraphs`): the five example graphs and
  their `hasCycle` flags.

Where the code and its documentation differ, the model follows the code:

- Stepping backward from cursor c > 0 replays steps 0..c-2 but places the
  cursor on c-1 (`src/App.tsx:242-246`). So the view shows one step fewer
  than stepping forward to c-1 does. `App.BackwardLagsCursor` exhibits a
  log where the two views differ.
- Stepping back from cursor 0 resets the visit states but leaves the
  in-degree badges as they were (`src/App.tsx:247-258`).
- `runAlgorithm` does not reset the view or the order panel
  (`src/App.tsx:98-129`).
- With a single node, `generateRandomDAG` adds an edge to the absent
  `node-1` (`src/utils/graphUtils.ts:26-27`).

## Model

| member | source | states |
|---|---|---|
| Seqs.IndexOf | src/algorithms/dfs.ts:134 | the position found holds the value and is its first occurrence |
| Seqs.Filter | src/App.tsx:187-188 | an entry is in the result exactly when it is in the input and passes the test; the result is no longer than the input |
| Seqs.ReverseKeeps | src/algorithms/dfs.ts:134 | reversing keeps the elements, and keeps them free of repeats |
| Seqs.SameElementsPermutation | src/algorithms/dfs.ts:134 | two repeat-free sequences over the same elements are permutations of each other |
| Strings.NatToStringInjective | src/utils/graphUtils.ts:10 | different numbers render as different decimal strings |
| Strings.DashJoinInjective | src/utils/graphUtils.ts:29 | `${s}-${t}` over two digit strings determines both of them |
| Strings.CharFromCode | src/utils/graphUtils.ts:11 | a code below the surrogate range becomes the character with that code |
| Graph.SuccIsEdges | src/utils/graphUtils.ts:54-56 | the successor list of u holds exactly the targets of the edges leaving u |
| Graph.BackEdgeCycle | src/algorithms/dfs.ts:36-46 | reaching a node that is on the current search path closes a cycle |
| Graph.OrderExcludesCycle | src/algorithms/kahn.ts:98-112 | a graph with an order in which every edge points forward has no cycle |
| Graph.PredecessorsEverywhereCycle | src/algorithms/kahn.ts:98-104 | if every node left over has a predecessor that is also left over, there is a cycle |
| Graph.PrefixOrderIsTopological | src/algorithms/kahn.ts:98-112 | a sorted prefix that covers all node ids is a topological order |
| Graph.ReversedFinishingIsTopological | src/algorithms/dfs.ts:132-134 | a finishing stack in which successors finish first, reversed, is a topological order |
| GraphUtils.CalculateInDegrees | src/utils/graphUtils.ts:88-100 | keys are the node ids plus the edge targets; each value is the number of edges ending at that key, so 0 for a node no edge reaches |
| GraphUtils.UnseenTargetHasNoEdges | src/utils/graphUtils.ts:91-93 | a node that is no edge's target keeps in-degree 0 |
| GraphUtils.BuildAdjacency | src/utils/graphUtils.ts:49-56 | one key per node id, holding the targets of its out-edges in edge order |
| GraphUtils.EnterKeepsSearchState | src/utils/graphUtils.ts:59-60 | marking a node visited and on the recursion stack keeps the search invariant, with the node appended to the path |
| GraphUtils.LeaveKeepsSearchState | src/utils/graphUtils.ts:73-74 | once all of a node's successors are finished, taking it off the recursion stack keeps the invariant, and it finishes after them |
| GraphUtils.CycleSearch.constructor | src/utils/graphUtils.ts:45-56 | the search starts with nothing visited, over the adjacency list of the graph |
| GraphUtils.CycleSearch.HasCycleDfs | src/utils/graphUtils.ts:58-75 | true only when the graph has a cycle; on false the node is finished, and the path and recursion stack are as before |
| GraphUtils.FinishAppend | src/utils/graphUtils.ts:73 | finishing a node after all its successors keeps successors finishing first |
| GraphUtils.DetectCycle | src/utils/graphUtils.ts:44-86 | true exactly when the graph has a cycle |
| GraphUtils.FloorScaled | src/utils/graphUtils.ts:26-27 | `Math.floor(r * k)` with r in [0, 1) lies in [0, k) for k > 0, and is 0 for k = 0 |
| GraphUtils.DrawPair | src/utils/graphUtils.ts:26-27 | the source index is below the target index; both are in range when n >= 2; with n = 1 the pair is (0, 1) |
| GraphUtils.DrawnPairs | src/utils/graphUtils.ts:25-28 | one index pair per draw |
| GraphUtils.NodeNameInjective | src/utils/graphUtils.ts:10 | different indices give different node ids |
| GraphUtils.EdgeKeyInjective | src/utils/graphUtils.ts:29 | the dedup key determines the index pair |
| GraphUtils.KeySetMember | src/utils/graphUtils.ts:31-32 | a key is in the set exactly when its pair was added before |
| GraphUtils.KeySetStep | src/utils/graphUtils.ts:31-32 | adding a pair adds exactly its key |
| GraphUtils.NumberedNext | src/utils/graphUtils.ts:8-19 | pushing node i keeps ids `node-k` and labels `chr(65+k)` at every position k |
| GraphUtils.MirrorsNext | src/utils/graphUtils.ts:33-37 | pushing the edge of a new pair keeps the edges in step with the kept pairs |
| GraphUtils.DrawRound | src/utils/graphUtils.ts:25-39 | one draw keeps the dedup of the draws so far, and its key set, in step |
| GraphUtils.DrawnPairsInRange | src/utils/graphUtils.ts:26-27 | every kept pair has source < target, and target < n when n >= 2 |
| GraphUtils.EdgeIdsDistinct | src/utils/graphUtils.ts:29-37 | edges made from distinct pairs have distinct ids |
| GraphUtils.GeneratedPairs | src/utils/graphUtils.ts:22-38 | at most floor(1.5 n) edges, distinct ids, pairs in range, and the single-node edge to `node-1` |
| GraphUtils.IndexOrderSortsGenerated | src/utils/graphUtils.ts:21-27 | edges from lower to higher index make the node order topological, so the graph is acyclic |
| GraphUtils.GenerateRandomDag | src/utils/graphUtils.ts:3-42 | n nodes `node-i` labelled `chr(65+i)`; the edges are the deduplicated draws in draw order; at most floor(1.5 n) of them, with distinct ids; for n != 1 well formed and acyclic, with the node order a topological order |
| Kahn.ZeroInDegreeFacts | src/algorithms/kahn.ts:26-31 | the seed is repeat-free and holds exactly the node ids of in-degree 0 |
| Kahn.InDegreeZeroNoEdge | src/algorithms/kahn.ts:26-31 | no edge ends at a node of in-degree 0 |
| Kahn.SeedQueue | src/algorithms/kahn.ts:26-31 | the queue holds the nodes of in-degree 0, in input order |
| Kahn.TablesAreInitial | src/algorithms/kahn.ts:12-21 | the table built holds every node's in-degree and no other key |
| Kahn.SeedState | src/algorithms/kahn.ts:23-31 | the seeded queue satisfies the queue invariant |
| Kahn.SeedLog | src/algorithms/kahn.ts:33-39 | the first step alone satisfies the log invariant |
| Kahn.SeedRunState | src/algorithms/kahn.ts:12-39 | the state before the loop satisfies the loop invariant |
| Kahn.DequeueKeepsState | src/algorithms/kahn.ts:42-54 | dequeuing the front and appending it to the result keeps the queue invariant |
| Kahn.DecreaseCounts | src/algorithms/kahn.ts:59-61 | the neighbour's count is at least 1 before the decrement, and the new count is the pending in-degree |
| Kahn.EnqueueKeepsOrder | src/algorithms/kahn.ts:73-74 | a node enqueued at count 0 extends the sorted prefix |
| Kahn.DecreaseKeepsState | src/algorithms/kahn.ts:59-74 | one decrement keeps the queue invariant, and the node is enqueued exactly when its count reaches 0 |
| Kahn.EmitUpdate | src/algorithms/kahn.ts:64-71 | one update step per decrement |
| Kahn.EmitEnqueue | src/algorithms/kahn.ts:73-82 | one extra select step per enqueue |
| Kahn.DecreaseMeaning | src/algorithms/kahn.ts:59-61 | the table after a run of decrements keeps its keys, and each count is lowered once per occurrence of its key |
| Kahn.DecreaseStep | src/algorithms/kahn.ts:60-61 | decrementing one more neighbour lowers its count by one and leaves the others |
| Kahn.DecreaseConcat | src/algorithms/kahn.ts:59-61 | decrements applied in two batches give the table of applying them all at once |
| Kahn.TableAppend | src/algorithms/kahn.ts:49 | a step whose snapshot is the initial table less the decrements logged so far keeps every snapshot so |
| Kahn.TableConcat | src/algorithms/kahn.ts:45-94 | a round's steps, counted from the table the log ends with, keep every snapshot of the whole log so |
| Kahn.TableUpdate | src/algorithms/kahn.ts:64-71 | the update step's snapshot is the table less every decrement logged, its own included |
| Kahn.TableEnqueue | src/algorithms/kahn.ts:75-82 | the enqueue step's snapshot is the same table as the update step before it |
| Kahn.NeighborKept | src/algorithms/kahn.ts:59-72 | a decrement that leaves the count positive logs one update step and keeps the round invariant |
| Kahn.NeighborEnqueued | src/algorithms/kahn.ts:59-83 | a decrement that reaches 0 logs an update step, enqueues the neighbour, logs a select step, and keeps the round invariant |
| Kahn.DecreaseNeighbor | src/algorithms/kahn.ts:59-83 | one neighbour's decrement, optional enqueue and steps keep the round invariant |
| Kahn.DecreaseNeighbors | src/algorithms/kahn.ts:57-84 | all of a dequeued node's out-edges are processed in edge order, keeping the round invariant |
| Kahn.ProcessFront | src/algorithms/kahn.ts:41-95 | one loop round appends the front of the queue to the result and keeps the loop invariant |
| Kahn.DequeueRound | src/algorithms/kahn.ts:42-54 | the dequeue step and the result append keep the queue and log invariants |
| Kahn.RoundQueue | src/algorithms/kahn.ts:41-84 | after a round the queue is the old queue's tail followed by the newly enqueued nodes |
| Kahn.RoundLog | src/algorithms/kahn.ts:45-94 | a round's steps extend the log invariant |
| Kahn.RemoveRound | src/algorithms/kahn.ts:86-94 | the remove step carries the current result prefix and the loop invariant holds again |
| Kahn.QueueNonNegative | src/algorithms/kahn.ts:60-61 | in-degree counts never go negative |
| Kahn.FullResultIsTopological | src/algorithms/kahn.ts:98-112 | a result that covers every node is a topological order, so the graph is acyclic |
| Kahn.ShortResultMeansCycle | src/algorithms/kahn.ts:98-104 | a result short of some node means the graph has a cycle |
| Kahn.Verdict | src/algorithms/kahn.ts:97-112 | the result is repeat-free and a sorted prefix; it covers every node exactly when the graph is acyclic, and then it is a topological order |
| Kahn.CompleteStep | src/algorithms/kahn.ts:98-111 | the final step is `complete` and carries the result |
| Kahn.Conclude | src/algorithms/kahn.ts:97-114 | the final log keeps its shape and its complete step reports success exactly when the result covers every node |
| Kahn.KahnsAlgorithm | src/algorithms/kahn.ts:3-115 | the first step seeds the queue with the in-degree-0 nodes and carries the full in-degree table; the last step is `complete`, with success exactly when the graph is acyclic, and then the result is a topological order; the queue is FIFO: the result is the seed followed by the enqueued nodes, and the dequeue and remove steps follow it; one update per out-edge of each processed node; counts never negative; each remove step carries the result so far; each in-degree snapshot is the initial table less the decrements logged up to it |
| Dfs.AppendSnapshot | src/algorithms/dfs.ts:52-105 | a step whose stack snapshot is the finishing stack keeps the snapshots in step |
| Dfs.AppendPop | src/algorithms/dfs.ts:143-149 | the pop step, with its empty stack, keeps the snapshots in step |
| Dfs.FreshRun | src/algorithms/dfs.ts:7-29 | the empty search with the start step satisfies the search invariant |
| Dfs.WiredAdjacency | src/algorithms/dfs.ts:15-22 | the adjacency list holds every node's successors, which are node ids |
| Dfs.EmitQuiet | src/algorithms/dfs.ts:63-95 | steps that change no search state keep the invariant |
| Dfs.EnterRun | src/algorithms/dfs.ts:52-61 | entering an unvisited node keeps the invariant, with the node on the path |
| Dfs.LeaveRun | src/algorithms/dfs.ts:97-106 | after all neighbours return, the node leaves the recursion stack and is pushed on the finishing stack, keeping the invariant |
| Dfs.BackEdgeRun | src/algorithms/dfs.ts:36-46 | reaching a node on the recursion stack sets the cycle flag with one explore step, and that node lies on a cycle |
| Dfs.Visit | src/algorithms/dfs.ts:31-50 | nothing happens once a cycle is found, or for a finished node; a node on the recursion stack reports the cycle; otherwise the node ends finished |
| Dfs.Expand | src/algorithms/dfs.ts:52-107 | after exploring its neighbours without a cycle, the node is finished and is the top of the finishing stack |
| Dfs.VisitNeighbors | src/algorithms/dfs.ts:73-87 | without a cycle, every neighbour ends finished and the recursion stack is as before |
| Dfs.TriedNext | src/algorithms/dfs.ts:110-122 | the root loop leaves every node it has passed visited |
| Dfs.AllVisited | src/algorithms/dfs.ts:110-122 | after the root loop every node id is visited |
| Dfs.ConcludeCyclic | src/algorithms/dfs.ts:124-131 | on a cycle the log ends with the back-edge step and one complete step with an empty result |
| Dfs.SortedTail | src/algorithms/dfs.ts:132-149 | the complete and pop steps add no explore or push sites and keep the stack snapshots |
| Dfs.ConcludeSorted | src/algorithms/dfs.ts:132-150 | without a cycle the log ends with complete and pop, and the pop's result, the reversed stack, is a topological order |
| Dfs.Conclude | src/algorithms/dfs.ts:124-150 | the final log satisfies the five promises of the sort |
| Dfs.DfsTopologicalSort | src/algorithms/dfs.ts:3-153 | starts with an empty-stack select; every stack snapshot is the finishing stack, which never repeats a node; it ends with pop exactly when the graph is acyclic; on a cycle one back-edge step on a node of a cycle and a complete step with an empty result; otherwise every node is explored once and the popped result is a topological order |
| App.SameGraphNodes | src/App.tsx:100-106 | views of the same nodes stand for the same graph nodes |
| App.ApplyToNodes | src/App.tsx:133-165 | applying a step keeps every node's id and label, in order |
| App.StepNodeRule | src/App.tsx:134-147 | the step's node becomes processing on select/explore and processed on remove/push, keeps its state otherwise, and takes its snapshot count if the snapshot has one |
| App.OtherNodeRule | src/App.tsx:148-163 | another node turns ready exactly when it was unvisited and the snapshot gives it 0; otherwise it keeps its state |
| App.OrderRule | src/App.tsx:167-169 | the order panel changes only on a step with a result, and then shows that result |
| App.Replay | src/App.tsx:240-244 | replaying steps keeps the nodes of the view |
| App.ReplayNext | src/App.tsx:240-244 | replaying one more step applies that step to the replayed view and order |
| App.NoSnapshotsNoReady | src/App.tsx:148-163 | steps without in-degree snapshots, as the depth-first engine logs, never make a node ready |
| App.BackwardLagsCursor | src/App.tsx:240-246 | a log where the view after stepping back from cursor 1 differs from the view at cursor 0 |
| App.ReplayShowsResult | src/App.tsx:167-169 | once the replay reaches a step with a result, the panel shows the log's final result |
| App.FreshSameNodes | src/App.tsx:209-239 | the fresh view depends only on the node ids and labels, not on their states or badges |
| App.RewindShowsFresh | src/App.tsx:206-260 | stepping back from a cursor of 1 or more down to -1 leaves the fresh view of the graph: states unvisited and the initial in-degree badges |
| App.Unvisit | src/App.tsx:209-217 | all states reset, nodes kept |
| App.WithInDegrees | src/App.tsx:231-239 | badges reset, nodes kept |
| App.Fresh | src/App.tsx:56-94 | the fresh view keeps the nodes |
| App.FreshFromTable | src/App.tsx:86-94 | unvisiting and then setting badges from `calculateInDegrees` gives every node unvisited with its in-degree |
| App.ViewWellFormed | src/App.tsx:184-198 | the view is a well-formed graph exactly when its ids are distinct and every edge joins two of its nodes |
| App.FilterKeepsDistinctIds | src/App.tsx:187 | filtering nodes keeps their ids distinct |
| App.DeleteNodeKeepsWellFormed | src/App.tsx:187-188 | deleting a node removes it and every edge touching it, nothing else, and keeps the graph well formed |
| App.DeleteEdgeKeepsWellFormed | src/App.tsx:196 | deleting an edge removes exactly the edges with that id and keeps the graph well formed |
| App.NewNode | src/App.tsx:281-294 | a new node is unvisited with badge 0 and a single capital letter as its label |
| App.AddNodeKeepsWellFormed | src/App.tsx:280-298 | the counter's id is new, so adding its node keeps the graph well formed |
| App.IssuedSameNodes | src/App.tsx:280-298 | views of the same nodes have the same issued ids |
| App.SortedIsEngineLog | src/App.tsx:122-124 | a successful depth-first log ends with a topological order as its result |
| App.RunEngine | src/App.tsx:122-124 | on an acyclic graph the log ends with a topological order as its result, and it is the log the selected engine writes (Kahn's log shape or the depth-first one) |
| App.EnginesDiffer | src/App.tsx:122-124 | no log has both the depth-first shape and Kahn's shape, so the engine log names which engine ran |
| App.Visualizer.constructor | src/App.tsx:33-43 | no nodes, no log, cursor -1, Kahn selected, counter 0, delete mode off |
| App.Visualizer.ApplyStep | src/App.tsx:132-170 | every node transformed by the step, and the order replaced exactly when the step carries a result |
| App.Visualizer.RunAlgorithm | src/App.tsx:98-129 | on a cycle nothing changes; otherwise the log has the selected engine's shape and ends in a topological order, with the cursor at -1 and playback on |
| App.Visualizer.StepForward | src/App.tsx:173-181 | before the last step the cursor advances and that step is applied; at the last step nothing changes; with an empty log the algorithm runs |
| App.Visualizer.StepBackward | src/App.tsx:206-260 | from c > 0 the cursor goes to c-1 and the view is the fresh view with steps 0..c-2 replayed; from 0 the cursor goes to -1 and the states are reset, badges and order kept; from -1 nothing changes |
| App.Visualizer.HandleReset | src/App.tsx:56-95 | playback off, cursor -1, empty log and order, and every node unvisited with its in-degree |
| App.Visualizer.AutoPlayTick | src/App.tsx:263-277 | at or past the last step of a non-empty log playback stops and nothing else changes; while playing before it, the next step is shown and the order panel is updated; while paused nothing changes |
| App.Visualizer.SetAlgorithm | src/App.tsx:35 | the selected engine is set |
| App.Visualizer.ToggleDeleteMode | src/App.tsx:201-203 | delete mode flips |
| App.Visualizer.DeleteNode | src/App.tsx:184-190 | in delete mode the node and the edges touching it go; otherwise nothing changes; the graph stays well formed |
| App.Visualizer.DeleteEdge | src/App.tsx:193-198 | in delete mode the edges with that id go; otherwise nothing changes |
| App.Visualizer.AddNode | src/App.tsx:280-298 | the counter's node is appended and the counter advances; the graph stays well formed |
| ExampleGraphs.SimpleDagWellFormed | src/utils/exampleGraphs.ts:16-26 | ids node-0..node-3, distinct, and every edge between them |
| ExampleGraphs.CoursePrerequisitesWellFormed | src/utils/exampleGraphs.ts:32-44 | ids node-0..node-4, distinct, and every edge between them |
| ExampleGraphs.BuildDependenciesWellFormed | src/utils/exampleGraphs.ts:50-63 | ids node-0..node-4, distinct, and every edge between them |
| ExampleGraphs.LinearChainWellFormed | src/utils/exampleGraphs.ts:69-81 | ids node-0..node-4, distinct, and every edge between them |
| ExampleGraphs.CyclicGraphWellFormed | src/utils/exampleGraphs.ts:87-98 | ids node-0..node-3, distinct, and every edge between them |
| ExampleGraphs.ExamplesWellFormed | src/utils/exampleGraphs.ts:16-98 | every example is well formed |
| ExampleGraphs.SimpleDagSorted | src/utils/exampleGraphs.ts:15-26 | node-0..node-3 is a topological order, so the graph is acyclic |
| ExampleGraphs.CoursePrerequisitesSorted | src/utils/exampleGraphs.ts:31-44 | node-0..node-4 is a topological order, so the graph is acyclic |
| ExampleGraphs.BuildDependenciesSorted | src/utils/exampleGraphs.ts:49-63 | util, core, api, db, main is a topological order, so the graph is acyclic |
| ExampleGraphs.LinearChainSorted | src/utils/exampleGraphs.ts:67-81 | node-0..node-4 is a topological order, so the graph is acyclic |
| ExampleGraphs.CyclicGraphCycle | src/utils/exampleGraphs.ts:86-98 | node-0, node-1, node-2, node-3, node-0 is a cycle |
| ExampleGraphs.ExampleFlagsAreRight | src/utils/exampleGraphs.ts:11-100 | every example's `hasCycle` flag says whether it has a cycle, which is what `detectCycle` returns |
| ExampleGraphs.SimpleDagInDegrees | src/utils/exampleGraphs.ts:16-26 | in-degrees A 0, B 0, C 1, D 2, and Kahn's queue starts as [node-0, node-1] |
| ExampleGraphs.LinearChainOnlyOrder | src/utils/exampleGraphs.ts:69-81 | an order is topological exactly when it is node-0, node-1, node-2, node-3, node-4 |
| ExampleGraphs.MainComesLast | src/utils/exampleGraphs.ts:51-63 | main has in-degree 2 and is last in every topological order |
| ExampleGraphs.CyclicGraphInDegrees | src/utils/exampleGraphs.ts:87-98 | every node has in-degree 1, so Kahn's queue starts empty |
| ExampleGraphs.NothingSorted | src/utils/exampleGraphs.ts:87-98 | no node of the cyclic example can begin a sorted prefix |
| ExampleGraphs.CyclicGraphKahn | src/utils/exampleGraphs.ts:87-98 | Kahn's algorithm processes none of the four nodes and ends with the cycle report |

## Left out

- React rendering, ReactFlow layout, node positions (`Math.random` in
  `handleAddNode`, the grid in `generateRandomDAG`) and the `showInDegree`
  flag: they only draw.
- The step `message` strings, and node labels inside them: they are display
  text; kind, node and snapshots carry the meaning. Labels are kept on nodes.
- The auto-play timer (`setTimeout`, `clearTimeout`, the `1000 / speed`
  delay). `App.Visualizer.AutoPlayTick` fires the timer at once.
- `alert`, `importGraph`, `handleExport`/`handleImport`, loading an example
  into the canvas, `onConnect`'s `addEdge` (its dedup is library code not
  part of this model), the help modal and the speed control.
- React batches state updates and re-renders between them. The model runs
  each handler's assignments in order, with every handler seeing the
  state the previous one left. handleReset's two `setNodes` calls are
  merged into one assignment with the same result.
- `Math.random`: `generateRandomDAG` takes its draws as a parameter, as
  pairs of reals in [0, 1).
- GraphUtils.GenerateRandomDag: requires exactly floor(1.5 n) draws,
  written `n + n / 2`, which is the same number for every natural n.
- Strings.CharFromCode: a code in the surrogate range gives U+FFFD rather
  than a lone surrogate. Only codes up to 90 are ever used.
- Kahn.KahnsAlgorithm, Dfs.DfsTopologicalSort, GraphUtils.DetectCycle:
  proved only for well-formed graphs (distinct node ids, edges between
  existing nodes). On other input `kahn.ts:20` creates table entries for
  unknown targets, and the engines' logs then are not modelled.
  GraphUtils.CalculateInDegrees does model those entries (`graphUtils.ts:96`).
  The controller handlers modelled here keep the graph well formed
  (`App.Visualizer.Valid`). `handleImport`, which is left out, installs an
  imported graph unchecked and does not advance `nodeCounter`, so after an
  import the source can reach malformed graphs and repeated node ids that
  this model never sees.
- Dfs.Visit, Dfs.Expand, Dfs.VisitNeighbors: the closure's shared mutable
  variables are modelled as one search record passed in and returned.
- App.Visualizer.StepBackward: models the replay as written. A single step
  back does not undo a single step forward: from cursor 0 the node states
  are reset but the badges and the order panel are kept. Rewinding all the
  way from a cursor of 1 or more to -1 does give the fresh view
  (`App.RewindShowsFresh`).
- Kahn.KahnsAlgorithm: the queue snapshots of the steps after the seed, and
  the interleaving of the select, update and remove steps within one round,
  are not stated. The node each emission site names, in order, the remove
  results and every in-degree snapshot are.
