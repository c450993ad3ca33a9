# A verified model of the integer-indexed core of `aybabtme/graph`

This project models the integer-indexed Go graph library `github.com/aybabtme/graph` in Dafny and proves properties of that model.

**Graph stores.** Each store is a class whose methods change it in place:
- `Ungraph.AdjList`: the undirected adjacency list.
- `Ungraph.AdjMatrix`: the undirected adjacency matrix, a two-dimensional `array<bool>`.
- `Digraphs.Digraph`: the directed adjacency list. Its edge counter is shared by copies, so one object stands for every copy.
- `WeightGraphs.WeightGraph`: the edge-weighted undirected store, holding the `Edge` value type.

`AdjList` and `WeightGraph` keep a ghost log of the `AddEdge` calls made on them, and their contracts say what their lists and counters hold in terms of that log. `Digraph` and `AdjMatrix` keep no log: their contracts give each new state in terms of the old one (one list extended, or two mirror cells set), and their counters are tied to the current lists or cells.

**Algorithms.** The algorithms read a graph only through `V()` and `Adj(v)`. They therefore take an adjacency snapshot `g: seq<seq<int>>`, with `g[v]` the list `Adj(v)` returns and `|g|` the vertex count. Each algorithm keeps the source's arrays (`marked`, `edgeTo`, `onStack`, `id`, `sz`) as Dafny arrays. It also keeps the source's recursion and loops, and is proved against ghost predicates over those arrays.

| Module | What it covers |
|---|---|
| `GraphQueries` | `Degree`, `MaxDegree` and `MinDegree`; `HasCycle` and `IsBipartite` as written; `HasEulerTour` |
| `Digraphs` | `Reverse`, `DirectedCycle`, `NewDAG`, the topological `Sort` and the in-place `reverse` |
| `UnionFind` | weighted quick-union |
| `PathFinders` | Tremaux depth-first and breadth-first path finders, with `HasPathTo` and `PathTo` |
| `Components` | `BuildCC`, the labelling `BuildSCC` performs, and the depth-first orders `BuildDFO` |
| `Closure` | the transitive closure |
| `Mst` | the `edgePQ` adapter behind `container/heap` |
| `Kruskal` | Kruskal's builder |
| `LazyPrim` | the lazy Prim builder |

**Where the code differs from its documentation, the model follows the code:**
- `MinDegree` reads one vertex past the end.
- `HasCycle` and `IsBipartite` test `marked` the wrong way round. On an undirected graph their answers are given as closed forms (`HasCycleVerdict`, `IsBipartiteVerdict`). Those forms show a path reported as cyclic and as not bipartite.
- `BuildSCC` runs its first pass on the digraph itself, not on its reverse. The model proves only the direction that still holds: mutually reachable vertices share an id. `SccMergesOneWay` shows two vertices that one-way reachability merges.
- The lazy Prim builder crashes on a nil queue. Behind that crash, it visits no first vertex and never sums the weight.
- `path/closure.go:19` assigns the two results of `BuildDFS` to one variable, so it does not compile. The model keeps the finder and drops the error, which cannot occur for a source inside the graph.

## Model

| member | source | states |
|---|---|---|
| `Ungraph.AdjList.constructor` | ungraph.go:8-13 | `n` vertices, every list empty, no edges logged |
| `Ungraph.AdjList.AddEdge` | ungraph.go:15-18 | appends `b` to list `a` and then `a` to list `b` (a self-loop twice), leaves every other list alone, and logs the edge |
| `Ungraph.AdjList.Adj` | ungraph.go:20-22 | list `x` is the ends at `x` of the logged edges, in the order added |
| `Ungraph.AdjList.V` | ungraph.go:24-26 | the vertex count is the number of lists |
| `Ungraph.AdjList.E` | ungraph.go:27-33 | the halved sum of the list lengths equals the number of `AddEdge` calls |
| `Ungraph.EndsSymmetric` | ungraph.go:15-18 | `w` occurs in list `v` exactly as often as `v` occurs in list `w` |
| `Ungraph.AdjListSymmetric` | ungraph.go:15-18 | in a store, the multiplicity of `y` at `x` equals that of `x` at `y`, and membership is symmetric |
| `Ungraph.AdjMatrix.constructor` | ungraph.go:45-54 | an `n` by `n` matrix with every cell false |
| `Ungraph.AdjMatrix.AddEdge` | ungraph.go:56-59 | the new cells are `SetEdge` of the old: cells `[a][b]` and `[b][a]` set, all others unchanged |
| `Ungraph.SetEdge` | ungraph.go:56-59 | sets both mirror cells and keeps every other cell |
| `Ungraph.SetEdgeIdempotent` | ungraph.go:56-59 | repeating the same `AddEdge` changes nothing |
| `Ungraph.SetEdgeCount` | ungraph.go:75-81 | a new non-loop edge adds 2 to the cell count and a new self-loop adds 1 |
| `Ungraph.AdjMatrix.Adj` | ungraph.go:61-69 | exactly the columns set in row `x`, strictly ascending, as many as the row's true cells |
| `Ungraph.AdjMatrix.V` | ungraph.go:71-73 | the number of rows |
| `Ungraph.AdjMatrix.E` | ungraph.go:75-81 | the number of true cells, without halving |
| `Digraphs.Digraph.constructor` | digraph.go:19-25 | `n` vertices, every list empty, edge count 0 |
| `Digraphs.Digraph.AddEdge` | digraph.go:81-84 | appends `b` to list `a` only and counts one more edge |
| `Digraphs.Digraph.Adj` | digraph.go:87-89 | a list is never longer than the edge count |
| `Digraphs.Digraph.V` | digraph.go:92-94 | the number of lists |
| `Digraphs.Digraph.E` | digraph.go:97-99 | the counter equals the total length of the lists |
| `Digraphs.Digraph.Reverse` | digraph.go:102-110 | a fresh digraph with the same V and E in which `x` occurs at `y` exactly as often as `y` at `x` in the original |
| `Digraphs.Digraph.AddReversed` | digraph.go:105-107 | adds, for each `w` listed at `x`, one `x` to list `w` of the reverse, and one to its counter |
| `Digraphs.DirectedCycle` | digraph.go:180-219 | empty exactly when the digraph is acyclic; otherwise a simple cycle: first equals last, consecutive pairs are edges, no other repeat |
| `Digraphs.CycleRoots` | digraph.go:212-216 | a recorded cycle is a simple cycle read backwards; no cycle recorded means acyclic |
| `Digraphs.CycleVisit` | digraph.go:192-210 | marks `v`, only ever adds marks, keeps a cycle found earlier, and otherwise leaves the stack, tree and finishing-time invariant intact with `v` off the stack |
| `Digraphs.CycleSuccessors` | digraph.go:195-208 | after the loop, while no cycle is recorded, every successor of `v` is finished; it stops early only once a cycle is recorded |
| `Digraphs.CycleEdge` | digraph.go:196-207 | one successor `w`: afterwards `w` is marked and off the stack, or the cycle closed by a stack vertex is recorded |
| `Digraphs.WalkBack` | digraph.go:202-206 | the collected vertices, reversed, are `v` followed by the stack from `w` on |
| `Digraphs.CycleFromStack` | digraph.go:201-206 | a stack segment closed by a back edge is a simple cycle |
| `Digraphs.NewDAG` | digraph.go:141-147 | succeeds exactly when the digraph is acyclic, and otherwise gives the source's error text |
| `Digraphs.DAG.Sort` | digraph.go:150-177 | every vertex exactly once; on an acyclic digraph, every edge goes from an earlier to a later position |
| `Digraphs.Postorder` | digraph.go:170-174 | every vertex is marked, and the finishing order lists marked vertices without repeats |
| `Digraphs.SortVisit` | digraph.go:160-168 | marks `v` and appends `v` to the finishing order, extending the earlier order |
| `Digraphs.SortEdge` | digraph.go:162-166 | afterwards a successor `w` of an acyclic digraph has finished |
| `Digraphs.ReversePostorder` | digraph.go:176 | the reversed finishing order is a permutation of the vertices and, when acyclic, a topological order |
| `Sequences.Reverse` | digraph.go:221-227 | reverses the array in place and returns the same array |
| `Sequences.ReversedTwice` | digraph.go:221-227 | reversing twice gives the input back |
| `WeightGraphs.NewEdge` | weightgraph.go:123-125 | `Either()` gives `v`, `Other(v)` gives `w`, and `Weight()` gives the weight |
| `WeightGraphs.OtherEnds` | weightgraph.go:133-143 | `Other(Either())` is `to`, `Other(to)` is `from`, and `Other` undoes itself at either end |
| `WeightGraphs.Edge.Less` | weightgraph.go:128-130 | true exactly when this edge weighs less than the other; the ends play no part |
| `WeightGraphs.Edge.Either` | weightgraph.go:133-135 | the `from` end, whose other end is `to` |
| `WeightGraphs.Edge.Other` | weightgraph.go:138-143 | always one of the edge's two ends; which one at each end is `OtherEnds` |
| `WeightGraphs.Edge.Weight` | weightgraph.go:146-148 | the weight the edge was made with |
| `WeightGraphs.LessStrictOrder` | weightgraph.go:128-130 | `Less` is irreflexive, asymmetric and transitive |
| `WeightGraphs.WeightGraph.constructor` | weightgraph.go:16-21 | `n` empty lists and an edge count of 0 |
| `WeightGraphs.WeightGraph.AddEdge` | weightgraph.go:62-66 | appends the edge at `from` and then at `to`, logs it, and counts one more edge |
| `WeightGraphs.WeightGraph.Adj` | weightgraph.go:69-71 | the logged edges incident to `x`, in the order added, a self-loop twice |
| `WeightGraphs.WeightGraph.V` | weightgraph.go:87-89 | the number of incidence lists |
| `WeightGraphs.WeightGraph.E` | weightgraph.go:92-94 | the number of `AddEdge` calls |
| `WeightGraphs.WeightGraph.Edges` | weightgraph.go:74-84 | grouped by smaller end in ascending order and in insertion order within a group; as a multiset, exactly the added edges that are not self-loops |
| `WeightGraphs.WeightGraph.AppendLower` | weightgraph.go:77-81 | scanning `v`'s list appends exactly the added edges whose smaller end is `v` |
| `WeightGraphs.KeptIncident` | weightgraph.go:78 | the test `Other(v) > v` keeps exactly the edges whose smaller end is `v`, dropping self-loops |
| `WeightGraphs.GroupedComplete` | weightgraph.go:74-84 | the groups together hold every non-loop edge once per time it was added |
| `WeightGraphs.NonLoopsMember` | weightgraph.go:78 | an edge is reported exactly when it was added and is not a self-loop |
| `GraphQueries.Degree` | graph.go:48-50 | the length of `v`'s list; in an adjacency-list store that is one per incident edge and two per self-loop (`AdjListDegree`) |
| `GraphQueries.DegreeAt` | graph.go:48-50 | the length of list `v`, and an index-out-of-range failure exactly when `v` is not a vertex |
| `GraphQueries.AdjListDegree` | graph.go:48-50 | in an adjacency-list store, the degree counts one per incident edge and two per self-loop |
| `GraphQueries.MaxDegree` | graph.go:54-64 | at least every degree, and either 0 or some vertex's degree; 0 without vertices |
| `GraphQueries.MinDegreeAsWritten` | graph.go:68-78 | the code as written: its first statement asks for the degree of vertex `V()`, so it always fails |
| `GraphQueries.MinDegreeAsWrittenPanics` | graph.go:68-78 | the code as written fails with index out of range on every graph |
| `GraphQueries.MinDegree` | graph.go:68-78 | corrected: at most every degree and equal to some vertex's degree; 0 without vertices |
| `GraphQueries.HasCycleVisit` | graph.go:94-104 | a stack overflow at depth 0 and at a first self-loop; false on an empty list; true at a first neighbour that is unmarked and not the caller |
| `GraphQueries.HasCycleAsWritten` | graph.go:89-114 | on an undirected graph with stack room, the answer is `HasCycleVerdict` |
| `GraphQueries.IsBipartiteVisit` | graph.go:123-134 | a stack overflow at depth 0 and at a first self-loop; true on an empty list; false at a first unmarked neighbour of the same colour |
| `GraphQueries.IsBipartiteAsWritten` | graph.go:117-145 | on an undirected graph with stack room, the answer is `IsBipartiteVerdict` |
| `GraphQueries.NoEdgeVerdicts` | graph.go:89-145 | without edges, `HasCycle` answers false and `IsBipartite` true |
| `GraphQueries.PathFixtureVerdicts` | graph.go:96-101 | the path 0-1-2 is properly two-coloured, yet is reported cyclic and not bipartite |
| `GraphQueries.SelfLoopVerdicts` | graph.go:96-98 | a self-loop on the first non-empty list overflows the stack in both checks |
| `GraphQueries.HasEulerTour` | euler.go:3-13 | true exactly when every degree is even, and true without vertices |
| `GraphQueries.EvenFrom` | euler.go:7-12 | the scan from `v` on is true exactly when every later degree is even |
| `UnionFind.UF.constructor` | unionfind/uf.go:12-24 | `n` singletons: `id[x] == x`, `sz[x] == 1`, and a count of `n` |
| `UnionFind.UF.Find` | unionfind/uf.go:46-54 | the root of `p`'s tree, a vertex that is its own parent |
| `UnionFind.UF.Union` | unionfind/uf.go:27-43 | afterwards `p` and `q` share a root; if they already did, nothing changes; otherwise the count drops by one and exactly the two trees are joined |
| `UnionFind.UF.Join` | unionfind/uf.go:35-42 | links the smaller tree under the larger (`j` under `i` on a tie) and drops the count by one |
| `UnionFind.UF.Link` | unionfind/uf.go:35-41 | `id[i] := j` with `sz[j]` grown by `sz[i]`; the trees of `i` and `j` merge and the invariant, including `sz[x] < sz[id[x]]`, is kept |
| `UnionFind.ForestLink` | unionfind/uf.go:35-41 | linking the root of a tree under another root keeps parents, roots, depths, sizes and the count consistent |
| `UnionFind.RelabelJoins` | unionfind/uf.go:27-43 | after a union, two elements share a root exactly when they did before or lie in the two joined trees |
| `UnionFind.UF.Connected` | unionfind/uf.go:57 | true exactly when `p` and `q` have the same root |
| `UnionFind.UF.Count` | unionfind/uf.go:60 | the number of distinct roots |
| `UnionFind.CountIsDistinctRoots` | unionfind/uf.go:60 | the count equals the number of distinct `Find` results |
| `UnionFind.RootSetIdentity` | unionfind/uf.go:19-22 | with every element its own parent there are `n` roots |
| `PathFinders.BuildDFS` | path/pathfinder.go:21-55 | the source's two errors for a negative or too large source; otherwise a finished search from it; path/dfs.go:17-51 repeats this algorithm |
| `PathFinders.SearchVisit` | path/pathfinder.go:42-50 | marks `v`, only ever adds marks, and keeps the search-tree invariant |
| `PathFinders.SearchSuccessors` | path/pathfinder.go:44-49 | afterwards every successor of `v` is marked, and each newly marked vertex hangs under the vertex it was reached from |
| `PathFinders.MarkedIffReachable` | path/pathfinder.go:42-52 | in a finished search, marked exactly when reachable from the source |
| `PathFinders.Finder.HasPathTo` | path/pathfinder.go:57-59 | true exactly when the source reaches `to`, for both finders (path/bfs.go:59-61 too) |
| `PathFinders.Finder.PathTo` | path/pathfinder.go:61-75 | empty when unreachable; otherwise a path from the source to `to` with no repeated vertex, as long as the tree depth; `[from]` for the source; shortest when the finder is breadth-first (path/bfs.go:63-77) |
| `PathFinders.ReversedPath` | path/pathfinder.go:77-83 | the in-place reversal yields the reversed sequence |
| `PathFinders.BuildBFS` | path/pathfinder.go:92-131 | the source's two errors; otherwise a finished search whose tree depths are shortest distances; path/bfs.go:18-57 repeats this algorithm |
| `PathFinders.RelaxedShortest` | path/pathfinder.go:111-128 | once no edge leaves a marked vertex more than one level deeper, no path from the source is shorter than the depth |
| `PathFinders.SearchQueue` | path/pathfinder.go:111-128 | every vertex is queued at most once; the marked set is closed; no edge leaves a vertex more than one level deeper |
| `PathFinders.Expand` | path/pathfinder.go:121-127 | each unmarked neighbour is queued, gets `v` as its tree parent and is marked |
| `Components.LabelVisit` | path/component.go:34-42 | marks `v` and everything unmarked it reaches, with the current count as their id; earlier ids are kept |
| `Components.LabelInOrder` | path/component.go:44-49 | every vertex gets the id of the first root, in the given order, that reaches it; the roots are exactly what the scan picks (`PickedInOrder`: each root is the first vertex of the order that no earlier root reaches); the count is the number of roots |
| `Components.PickedSame` | path/component.go:44-49 | any vertex one scan of an order picks, every other scan of that order on the same graph picks too |
| `Components.PickedUnique` | path/component.go:44-49 | a scan of an order on a graph has one outcome: the roots and their positions are fixed by the graph and the order |
| `Components.BuildCC` | path/component.go:23-52 | the labelling whose roots are exactly what the ascending scan picks: vertex 0, then each vertex that no smaller root reaches; by `PickedUnique` the graph alone fixes roots and ids; path/cc.go:21-50 repeats this algorithm |
| `Components.ConnectedComponents.Connected` | path/component.go:54-56 | on an undirected graph, true exactly when `w` is reachable from `v`; on any graph, whenever `v` and `w` reach each other |
| `Components.ConnectedComponents.Count` | path/component.go:58-60 | between 1 and V on a non-empty graph; no root reaches a later one |
| `Components.ConnectedComponents.Id` | path/component.go:62-64 | the first of the ascending scan's roots that reaches `v`, below `Count()`; 0 for vertex 0 |
| `Components.ComponentMeaning` | path/component.go:62-64 | mutually reachable vertices share an id; on an undirected graph, equal ids are exactly reachability |
| `Components.IdIsFirstRoot` | path/component.go:44-49 | a vertex's id names a root that reaches it, and no earlier root does |
| `Components.RootsApart` | path/component.go:44-49 | no root reaches a later root |
| `Components.SymmetricSameId` | path/cc.go:52-54 | on an undirected graph, equal ids are exactly reachability |
| `Components.MutualSameId` | path/component.go:115-117 | mutually reachable vertices share an id |
| `Components.BuildSCC` | path/component.go:84-113 | a labelling whose roots are exactly what a scan of `scc.order` picks, `scc.order` being a permutation of the vertices headed by the first root; when vertex 0 reaches every vertex, every id is 0 |
| `Components.StrongComponents.StronglyConnected` | path/component.go:115-117 | true whenever `v` and `w` reach each other |
| `Components.StrongComponents.Count` | path/component.go:119-121 | between 1 and V on a non-empty digraph |
| `Components.StrongComponents.Id` | path/component.go:123-125 | the first of the roots the scan of `order` picks that reaches `v`, below `Count()` |
| `Components.SccMergesOneWay` | path/component.go:104 | on `0 -> 1`, vertices 0 and 1 share an id although 1 does not reach 0 |
| `DepthFirstOrders.BuildDFO` | path/component.go:140-169 | `Pre` and `Post` are permutations of the vertices, `ReversePost` is `Post` reversed, and `Pre` starts at 0 |
| `DepthFirstOrders.OrderVisit` | path/component.go:146-158 | `v` opens its preorder segment and closes its postorder segment, and every vertex discovered inside the call is in that postorder segment |
| `DepthFirstOrders.OrderSuccessors` | path/component.go:150-154 | afterwards every successor of `v` is marked and finished |
| `DepthFirstOrders.ReversedOrdering` | path/component.go:166 | the reverse of a permutation is a permutation |
| `DepthFirstOrders.ScannedAll` | path/component.go:160-164 | after the outer loop, both orders are permutations |
| `Closure.BuildTransitiveClosure` | path/closure.go:15-23 | one finished depth-first finder per vertex, sourced at that vertex |
| `Closure.TransitiveClosure.Reachable` | path/closure.go:26-28 | true exactly when a directed path leads from `v` to `w` |
| `Closure.ClosureReflexive` | path/closure.go:19 | every vertex reaches itself |
| `Closure.ClosureEdge` | path/closure.go:26-28 | every edge is a reachable pair |
| `Closure.ClosureTransitive` | path/closure.go:26-28 | reachable pairs compose |
| `Mst.Spanning.Edges` | mst/kruskal.go:49-51 | the builder's tree edges (also mst/prim.go:55-57) |
| `Mst.Spanning.Weight` | mst/kruskal.go:53-55 | the builder's recorded weight (also mst/prim.go:59-61) |
| `Mst.EdgePQ.Len` | mst/mst.go:24-26 | the number of items |
| `Mst.EdgePQ.Less` | mst/mst.go:28-30 | true exactly when item `v`'s edge weighs less than item `w`'s |
| `Mst.EdgePQ.Swap` | mst/mst.go:32-36 | exchanges the two items, rewrites their positions, and keeps the multiset of edges and the position invariant |
| `Mst.EdgePQ.Push` | mst/mst.go:38-45 | appends the edge with the old length as its position |
| `Mst.EdgePQ.Pop` | mst/mst.go:47-54 | removes the last item, returns its edge, and keeps the prefix |
| `Mst.HeapPush` | mst/mst.go:38-45 | the queue holds one more copy of the edge |
| `Mst.MinIndex` | mst/mst.go:28-30 | a position whose edge weighs no more than any other |
| `Mst.HeapPop` | mst/mst.go:32-54 | removes and returns one copy of a lightest queued edge |
| `Kruskal.BuildKruskalMST` | mst/kruskal.go:16-46 | tree edges come from `Edges()` at most once each, in nondecreasing weight; the weight is their sum; a forest, each edge joining two trees of the edges before it; any two vertices the graph connects are connected by tree edges; the union-find trees number V less the tree edges; at most V - 1 edges, V - 1 on a connected graph |
| `Kruskal.QueueAll` | mst/kruskal.go:22-25 | the queue holds exactly the reported edges |
| `Kruskal.Grow` | mst/kruskal.go:29-43 | the main loop ends in the same outcome: a spanning forest of edges taken lightest first (`Outcome`) |
| `Kruskal.Consider` | mst/kruskal.go:34-42 | one pop: accepts the edge if its ends were apart, uniting them and adding its weight, and keeps the loop invariant |
| `Kruskal.AcceptJoins` | mst/kruskal.go:38-41 | an edge between two classes grows the forest, and after the union the tree edges still connect any two vertices of one class |
| `Kruskal.ProgressAccept` | mst/kruskal.go:38-42 | accepting the lightest edge between two trees keeps the invariant |
| `Kruskal.ProgressSkip` | mst/kruskal.go:38 | dropping an edge inside one tree keeps the invariant |
| `Kruskal.ProgressBound` | mst/kruskal.go:30 | the tree never exceeds V - 1 edges, so the size test never ends the loop |
| `Kruskal.ProgressEnd` | mst/kruskal.go:29-45 | an empty queue gives the outcome above, the forest and spanning clauses included |
| `Kruskal.EndSpans` | mst/kruskal.go:29-45 | once every graph edge lies inside one class and the tree connects each class, the tree connects every pair the graph connects |
| `UnionFind.JoinedKeeps` | unionfind/uf.go:27-43 | after the weighted union of `p` and `q`, two sites share a root exactly when they did before or lie in the trees of `p` and `q` |
| `Forests.LinkKeepsReach` | mst/kruskal.go:40 | a path of the tree's graph survives adding an edge |
| `Forests.LinkJoins` | mst/kruskal.go:40 | the added edge connects its two ends, both ways (also mst/prim.go:44) |
| `Forests.ForestSnoc` | mst/kruskal.go:38-40 | an edge whose ends the forest does not yet connect grows the forest (also mst/prim.go:44) |
| `Forests.TreeGraphHas` | mst/kruskal.go:40 | each tree edge connects its ends in the tree's graph |
| `Forests.ForestSimple` | mst/kruskal.go:38-40 | a forest has no self-loop and no edge twice |
| `Forests.TreeGraphClosed` | mst/prim.go:44-51 | when every tree edge stays on one side of a mark, no tree path crosses it |
| `LazyPrim.HeapInit` | mst/prim.go:17-18 | a nil queue is a nil dereference; otherwise the queue's length |
| `LazyPrim.BuildLazyPrimAsWritten` | mst/prim.go:15-18 | as written the builder crashes before its loop on every graph |
| `LazyPrim.CrossingMember` | mst/prim.go:24-28 | an edge is queued by `visit` exactly when it is at `v` and its other end is unmarked |
| `LazyPrim.PrimVisit` | mst/prim.go:22-29 | marks `v` and queues exactly the edges at `v` whose other end is unmarked |
| `LazyPrim.CrossingPrefixMember` | mst/prim.go:24-28 | an edge is queued in the first `i` rounds exactly when it is among the first `i` at `v` and its other end is unmarked |
| `LazyPrim.QueueCrossing` | mst/prim.go:24-28 | the loop adds to the queue exactly the edges of the list whose other end is unmarked, once per occurrence |
| `LazyPrim.PushCrossing` | mst/prim.go:25-27 | one round adds the edge exactly when its other end is unmarked |
| `LazyPrim.PrimDiscard` | mst/prim.go:40-42 | dropping an edge with both ends marked keeps the invariant |
| `LazyPrim.PrimAccept` | mst/prim.go:44-51 | an accepted edge has exactly one unmarked end; visiting it keeps the invariant and marks one more vertex |
| `LazyPrim.AcceptReaches` | mst/prim.go:44-51 | an edge from a marked vertex to the unmarked `x` grows the forest, and the tree then connects 0 to `x` and still to every marked vertex |
| `LazyPrim.PrimStep` | mst/prim.go:36-51 | one round keeps the invariant, and marks one more vertex or shrinks the queue |
| `LazyPrim.PrimLoop` | mst/prim.go:31-52 | ends with an empty queue and the invariant; an empty queue at entry returns at once, unchanged |
| `LazyPrim.PrimSeed` | mst/prim.go:22-29 | visiting vertex 0 first sets up the invariant |
| `LazyPrim.PrimEnd` | mst/prim.go:31-34 | an empty queue gives the outcome of `BuildLazyPrimMST`, including that the tree connects 0 to exactly the marked vertices |
| `LazyPrim.UnseededPrim` | mst/prim.go:15-61 | with the queue allocated but nothing visited first, the result is no edges and weight 0 |
| `LazyPrim.BuildLazyPrimMST` | mst/prim.go:15-61 | corrected: marks exactly the vertices 0 reaches; the tree is a forest of added non-loop edges that connects 0 to exactly those vertices, one edge fewer than there are of them; the weight is the tree's total; V - 1 edges on a connected graph |
| `LazyPrim.OutcomeSpans` | mst/prim.go:15-61 | of the tree alone: a forest of added non-loop edges connecting 0 to exactly the vertices the graph connects to 0 |
| `LazyPrim.PrimDiffers` | mst/prim.go:31-34 | on one edge of weight 5, the unseeded loop returns nothing, while the corrected builder returns that edge and weight 5 |

## Left out

- Text input: `ReadDigraph`, `ReadWeightGraph` and `ioutil.go` parse text through `fmt`, `bufio` and `strconv`. They are I/O and not part of this model.
- The `GoString`/`stringify` formatters are presentation only and are not modelled.
- `AvgDegree` is floating point and is not modelled.
- Edge weights are integers, not `float64`. Weight comparison and summation are exact.
- `container/heap` is a library outside the repository. `HeapPush` and `HeapPop` stand for `heap.Push` and `heap.Pop` by what they achieve: insert an edge, and remove a lightest one, using the adapter's `Less`, `Swap`, `Push` and `Pop`. Mst.HeapPop: the heap's sift order is not modelled, so among equally light edges it may pick a different one than `container/heap` would.
- The `typed/` package, `client/client.go` and the interface declarations (`Graph`, `PathFinder`, `CC`, `SCC`, `MST`, `path/path.go`) are not part of this model. The concrete types stand in for the interfaces.
- `EulerTour`, `HasEulerCircuit` and `EulerCircuit` always panic with "not implemented" and are not modelled.
- Index panics on arguments out of range are not modelled. In Go, an argument outside the valid range is an index panic; the model requires it in range instead. This applies to:
  - the stores' `AddEdge` and `Adj`;
  - `UnionFind.UF.Find`, `UnionFind.UF.Union` and `UnionFind.UF.Connected`;
  - `PathFinders.Finder.HasPathTo` and `PathFinders.Finder.PathTo`;
  - `Components.ConnectedComponents.Connected` and `Components.ConnectedComponents.Id`;
  - `Components.StrongComponents.StronglyConnected` and `Components.StrongComponents.Id`;
  - `Closure.TransitiveClosure.Reachable`;
  - `Mst.EdgePQ.Less` and `Mst.EdgePQ.Swap`.
- Mst.EdgePQ.Pop: in Go, `Pop` on an empty slice is an index panic (mst/mst.go:50). The model requires a non-empty queue instead, as do `Mst.HeapPop` and `Mst.MinIndex`.
- `make` panics on a negative size. The constructors instead require a size `>= 0`: the stores' constructors and `UnionFind.UF.constructor`.
- Digraphs.DirectedCycle: the contract says the result is a simple cycle exactly when the digraph has one. It does not pin down which cycle: the one closed by the first back edge met in the search order. So a particular expected cycle for a given digraph follows from the body, not from the contract.
- Go index panics from out-of-range adjacency entries are not modelled. The algorithms require every listed vertex to be in range (`WellFormed`). `Digraph.AddEdge`, like the Go code, does not check its head vertex, so this also applies to `Digraphs.Digraph.Reverse`, `Digraphs.DirectedCycle`, `Digraphs.NewDAG` and `Digraphs.DAG.Sort`.
- Stack depth: only `HasCycle` and `IsBipartite`, which can recurse without end, carry a depth bound. The other depth-first searches are bounded by the vertex count and are modelled without a stack limit.
- Callers that change the slice `Adj` returns are not modelled; neither is the aliasing between Go value copies. One object stands for every copy of a store.
- GraphQueries.HasCycleAsWritten: its answer is characterised only on undirected graphs. Textbook cycle detection is not modelled.
- GraphQueries.IsBipartiteAsWritten: its answer is characterised only on undirected graphs. Textbook two-colouring is not modelled.
- Components.BuildSCC: `scc.order` is the reverse postorder `BuildDFO` computes in the body, but the contract does not say so. `DepthFirstOrders.BuildDFO` promises only that this order is a permutation of the vertices, headed by 0 when 0 reaches every vertex; the depth-first postorder itself is not characterised. So roots and ids are fixed relative to `scc.order`, not by the digraph alone.
- Components.StrongComponents.Id: fixed by the digraph and `order` (`PickedUnique`), but `order` is not tied to the depth-first postorder (see `Components.BuildSCC`).
- Components.StrongComponents.StronglyConnected: proved only in the direction that holds ("reach each other implies same id"). The converse is false for this code (`SccMergesOneWay`), and the textbook two-pass algorithm on the reverse digraph is not modelled.
- Kruskal.BuildKruskalMST: proves a spanning forest built lightest first, not that its total weight is minimal. The cut-property exchange argument is not modelled.
- LazyPrim.BuildLazyPrimMST: proves a spanning tree of 0's component, not that its total weight is minimal.
- LazyPrim.PrimStep: after an accepted edge the Go code tests `!marked[v]` and then `!marked[w]`. Since exactly one end is unmarked, the model folds the two tests into `if !marked[v] … else …`.
- The two Go type assertions in lazy Prim are not modelled; the model's queue holds one edge type. The code pushes an `Edge` value (mst/prim.go:26) where `edgePQ.Push` asserts `*graph.Edge` (mst/mst.go:41). It asserts `graph.Edge` (mst/prim.go:36) on what `Pop` returns as `*graph.Edge` (mst/mst.go:53). Both would panic, but only behind the nil-queue crash or its correction.
- The breadth-first queue's type assertion (path/pathfinder.go:116-119) cannot fail, because only `int`s are queued. The model's queue is a `seq<int>`.
- `path/closure.go:19` does not compile, since a two-result call is assigned to one variable. The model takes the finder and ignores the error, which is impossible for a source inside the graph.

## Findings

| source | as written | input that shows it | evidently intended | confidence | as-written member | corrected member |
|---|---|---|---|---|---|---|
| graph.go:69 | `MinDegree` starts from `Degree(g, g.V())`, one past the last vertex, and its loop stops before vertex `V-1` | any graph, e.g. one vertex and no edges: index out of range | the least degree over all vertices | not executed | `GraphQueries.MinDegreeAsWrittenPanics` | `GraphQueries.MinDegree` |
| mst/prim.go:17-18 | the queue is a nil `*edgePQ`, and `heap.Init` calls `Len` through it | any weighted graph: nil dereference | an allocated, empty queue | not executed | `LazyPrim.BuildLazyPrimAsWritten` | `LazyPrim.BuildLazyPrimMST` |
| mst/prim.go:31-34 | no vertex is visited before the loop, so the queue is empty at once; `weight` is never assigned (mst/prim.go:44, 59-61) | two vertices joined by one edge of weight 5: no edges and weight 0 | visit vertex 0 first, and add each accepted edge's weight | not executed | `LazyPrim.PrimDiffers` | `LazyPrim.BuildLazyPrimMST` |
