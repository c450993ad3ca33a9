// Lazy Prim: grow a tree from one vertex, keeping every edge that leaves
// the marked vertices in an edge queue and taking the lightest one whose
// far end is still unmarked.
//
// The builder as written never gets that far: its queue is a nil pointer
// when heap.Init asks it for its length. Two further defects lie behind
// that one: nothing visits a first vertex, so the queue stays empty, and
// the weight is never summed. BuildLazyPrimAsWritten and UnseededPrim model
// the code as it stands; BuildLazyPrimMST is the evidently intended builder,
// seeded with vertex 0 and adding up the weights of the tree.
module LazyPrim {
  import opened Graphs
  import opened WeightGraphs
  import opened Mst
  import opened Forests

  /** heap.Init on the queue pointer: it asks the queue for its length,
      which through a nil pointer is a nil dereference. */
  method HeapInit(pq: EdgePQ?) returns (r: Outcome<int>)
    ensures pq == null <==> r == Crashed(NilDereference)
    ensures pq != null ==> r == Returned(|pq.items|)
  {
    if pq == null {
      r := Crashed(NilDereference);
    } else {
      r := Returned(pq.Len());
    }
  }

  /** BuildLazyPrimMST as written: the queue is declared but never
      allocated, so the builder crashes at heap.Init. */
  method BuildLazyPrimAsWritten(wg: WeightGraph) returns (r: Outcome<Spanning>)
    requires wg.Valid()
    ensures r == Crashed(NilDereference)
  {
    var pq: EdgePQ? := null;
    var init := HeapInit(pq);
    r := Crashed(init.failure);
  }

  /** Vertex x is in range and marked. */
  predicate Marked(m: seq<bool>, x: int)
  {
    0 <= x < |m| && m[x]
  }

  /** The entries of list whose end away from v is not marked, in order. */
  function Crossing(list: seq<Edge>, v: int, m: seq<bool>): seq<Edge>
  {
    CrossingPrefix(list, |list|, v, m)
  }

  /** Those among the first i entries of list. */
  function CrossingPrefix(list: seq<Edge>, i: nat, v: int, m: seq<bool>): seq<Edge>
    requires i <= |list|
  {
    if i == 0 then []
    else CrossingPrefix(list, i - 1, v, m) + (if Marked(m, list[i - 1].Other(v)) then [] else [list[i - 1]])
  }

  lemma {:induction false} CrossingPrefixMember(list: seq<Edge>, i: nat, v: int, m: seq<bool>, e: Edge)
    requires i <= |list|
    ensures e in CrossingPrefix(list, i, v, m) <==> e in list[..i] && !Marked(m, e.Other(v))
  {
    if i > 0 {
      assert list[..i] == list[..i - 1] + [list[i - 1]];
      CrossingPrefixMember(list, i - 1, v, m, e);
    }
  }

  lemma CrossingMember(list: seq<Edge>, v: int, m: seq<bool>, e: Edge)
    ensures e in Crossing(list, v, m) <==> e in list && !Marked(m, e.Other(v))
  {
    CrossingPrefixMember(list, |list|, v, m, e);
    assert list[..|list|] == list;
  }

  /** visit(v): marks v and queues every edge at v whose other end is
      unmarked. */
  method PrimVisit(wg: WeightGraph, v: int, marked: array<bool>, pq: EdgePQ)
    requires wg.Valid() && 0 <= v < |wg.adj| && marked.Length == |wg.adj|
    modifies marked, pq
    ensures marked[..] == old(marked[..])[v := true]
    ensures multiset(EdgesOf(pq.items))
            == multiset(EdgesOf(old(pq.items))) + multiset(Crossing(wg.adj[v], v, marked[..]))
  {
    ghost var adj, added := wg.adj, wg.added;
    marked[v] := true;
    var list := wg.Adj(v);
    forall j | 0 <= j < |list| ensures 0 <= list[j].Other(v) < marked.Length {
      OtherInRange(adj, added, v, j);
    }
    QueueCrossing(list, v, marked, pq);
  }

  /** The loop of visit(v) over the edges list at v: pushes each one whose
      other end is unmarked. */
  method QueueCrossing(list: seq<Edge>, v: int, marked: array<bool>, pq: EdgePQ)
    requires forall j :: 0 <= j < |list| ==> 0 <= list[j].Other(v) < marked.Length
    modifies pq
    ensures multiset(EdgesOf(pq.items)) == multiset(EdgesOf(old(pq.items))) + multiset(Crossing(list, v, marked[..]))
  {
    ghost var start := multiset(EdgesOf(pq.items));
    var i := 0;
    while i < |list|
      invariant 0 <= i <= |list|
      invariant multiset(EdgesOf(pq.items)) == start + multiset(CrossingPrefix(list, i, v, marked[..]))
    {
      PushCrossing(list[i], v, marked, pq);
      i := i + 1;
    }
  }

  /** One round of that loop: e is pushed when its end away from v is
      unmarked. */
  method PushCrossing(e: Edge, v: int, marked: array<bool>, pq: EdgePQ)
    requires 0 <= e.Other(v) < marked.Length
    modifies pq
    ensures multiset(EdgesOf(pq.items))
            == multiset(EdgesOf(old(pq.items))) + multiset(if Marked(marked[..], e.Other(v)) then [] else [e])
  {
    if !marked[e.Other(v)] {
      HeapPush(pq, e);
    }
  }

  /** Every queued edge was added and has a marked end. */
  ghost predicate Queued(added: seq<Edge>, m: seq<bool>, queued: multiset<Edge>)
  {
    forall x :: x in queued ==> x in added && (Marked(m, x.from) || Marked(m, x.to))
  }

  /** Every edge from a marked vertex to an unmarked one is queued. */
  ghost predicate Frontier(adj: seq<seq<Edge>>, m: seq<bool>, queued: multiset<Edge>)
  {
    forall v, i :: 0 <= v < |adj| && 0 <= i < |adj[v]| && Marked(m, v) && !Marked(m, adj[v][i].Other(v))
      ==> adj[v][i] in queued
  }

  /** Every tree edge was added, is not a self-loop and joins two marked
      vertices. */
  ghost predicate TreeInside(added: seq<Edge>, m: seq<bool>, tree: seq<Edge>)
  {
    forall k :: 0 <= k < |tree| ==>
      tree[k] in added && tree[k].from != tree[k].to && Marked(m, tree[k].from) && Marked(m, tree[k].to)
  }

  /** The tree has one edge fewer than there are marked vertices, or
      nothing is marked yet. */
  ghost predicate Counted(n: int, m: seq<bool>, tree: seq<Edge>)
  {
    |tree| + Unvisited(m) + 1 == n || (tree == [] && Unvisited(m) == n)
  }

  /** Vertex 0 is marked once anything is, and every marked vertex is
      reachable from it. */
  ghost predicate Rooted(adj: seq<seq<Edge>>, m: seq<bool>)
  {
    (Unvisited(m) < |adj| ==> Marked(m, 0))
    && forall v :: 0 <= v < |m| && m[v] ==> Reachable(Neighbours(adj), 0, v)
  }

  /** The tree is a forest, and its edges connect vertex 0 to every marked
      vertex. */
  ghost predicate TreeReaches(m: seq<bool>, tree: seq<Edge>)
  {
    Forest(tree, |m|)
    && forall v {:trigger Reachable(TreeGraph(tree, |m|), 0, v)} ::
         0 <= v < |m| && m[v] ==> Reachable(TreeGraph(tree, |m|), 0, v)
  }

  /** What holds each time the loop asks the queue for its length. */
  ghost predicate PrimState(adj: seq<seq<Edge>>, added: seq<Edge>, m: seq<bool>, queued: multiset<Edge>,
                            tree: seq<Edge>, weight: int)
  {
    |m| == |adj| && Stored(adj, added)
    && Queued(added, m, queued) && Frontier(adj, m, queued)
    && TreeInside(added, m, tree) && Counted(|adj|, m, tree) && Rooted(adj, m)
    && TreeReaches(m, tree)
    && weight == SumWeights(tree)
  }

  /** Nothing marked, nothing queued. */
  lemma PrimEmpty(adj: seq<seq<Edge>>, added: seq<Edge>, m: seq<bool>)
    requires Stored(adj, added) && |m| == |adj|
    requires forall x :: 0 <= x < |m| ==> !m[x]
    ensures PrimState(adj, added, m, multiset{}, [], 0)
  {
    UnvisitedAllFalse(m);
  }

  /** The edges visit(0) queues were added and have the marked end 0. */
  lemma SeedQueued(adj: seq<seq<Edge>>, added: seq<Edge>, m: seq<bool>)
    requires Stored(adj, added) && |m| == |adj| > 0 && m[0]
    ensures Queued(added, m, multiset{} + multiset(Crossing(adj[0], 0, m)))
  {
    forall x | x in multiset{} + multiset(Crossing(adj[0], 0, m)) ensures x in added && (Marked(m, x.from) || Marked(m, x.to)) {
      CrossingMember(adj[0], 0, m, x);
      IncidentMember(added, 0, x);
    }
  }

  /** When 0 is the only marked vertex, visit(0) queued the whole frontier. */
  lemma SeedFrontier(adj: seq<seq<Edge>>, m: seq<bool>)
    requires |m| == |adj| > 0 && forall x :: 0 < x < |m| ==> !m[x]
    ensures Frontier(adj, m, multiset{} + multiset(Crossing(adj[0], 0, m)))
  {
    forall v, i | 0 <= v < |adj| && 0 <= i < |adj[v]| && Marked(m, v) && !Marked(m, adj[v][i].Other(v))
      ensures adj[v][i] in multiset{} + multiset(Crossing(adj[0], 0, m))
    {
      CrossingMember(adj[0], 0, m, adj[v][i]);
    }
  }

  /** After visit(0) on an unmarked graph. */
  lemma PrimSeed(adj: seq<seq<Edge>>, added: seq<Edge>, m: seq<bool>)
    requires Stored(adj, added) && |m| == |adj| > 0
    requires forall x :: 0 <= x < |m| ==> !m[x]
    ensures PrimState(adj, added, m[0 := true], multiset{} + multiset(Crossing(adj[0], 0, m[0 := true])), [], 0)
    ensures Unvisited(m[0 := true]) < |adj|
  {
    var m' := m[0 := true];
    UnvisitedAllFalse(m);
    UnvisitedMark(m, 0);
    SeedQueued(adj, added, m');
    SeedFrontier(adj, m');
    ReachSelf(Neighbours(adj), 0);
    ReachSelf(TreeGraph([], |m|), 0);
    assert forall v :: 0 <= v < |m'| && m'[v] ==> v == 0;
  }

  /** An edge between two marked vertices is dropped from the queue. */
  lemma PrimDiscard(adj: seq<seq<Edge>>, added: seq<Edge>, m: seq<bool>, queued: multiset<Edge>,
                    tree: seq<Edge>, weight: int, e: Edge, rest: multiset<Edge>)
    requires PrimState(adj, added, m, queued, tree, weight)
    requires rest + multiset{e} == queued && Marked(m, e.from) && Marked(m, e.to)
    ensures PrimState(adj, added, m, rest, tree, weight)
  {
    forall x | x in rest ensures x in queued {
      assert queued[x] == rest[x] + multiset{e}[x];
    }
    forall v, i | 0 <= v < |adj| && 0 <= i < |adj[v]| && Marked(m, v) && !Marked(m, adj[v][i].Other(v))
      ensures adj[v][i] in rest
    {
      var x := adj[v][i];
      assert x in queued;
      assert x != e;
      assert queued[x] == rest[x] + multiset{e}[x];
    }
  }

  /** Marking x keeps every mark. */
  lemma MarkedKept(m: seq<bool>, x: int, y: int)
    requires 0 <= x < |m|
    ensures Marked(m, y) ==> Marked(m[x := true], y)
  {
  }

  /** Visiting x keeps every queued edge added and with a marked end. */
  lemma AcceptQueued(adj: seq<seq<Edge>>, added: seq<Edge>, m: seq<bool>, queued: multiset<Edge>,
                     e: Edge, rest: multiset<Edge>, x: int)
    requires Stored(adj, added) && |m| == |adj| && 0 <= x < |m| && Queued(added, m, queued)
    requires rest + multiset{e} == queued
    ensures Queued(added, m[x := true], rest + multiset(Crossing(adj[x], x, m[x := true])))
  {
    var m', q := m[x := true], rest + multiset(Crossing(adj[x], x, m[x := true]));
    forall z | z in q ensures z in added && (Marked(m', z.from) || Marked(m', z.to)) {
      if z in rest {
        assert queued[z] == rest[z] + multiset{e}[z];
        assert z in queued;
        MarkedKept(m, x, z.from);
        MarkedKept(m, x, z.to);
      } else {
        CrossingMember(adj[x], x, m', z);
        IncidentMember(added, x, z);
        assert Marked(m', x);
      }
    }
  }

  /** After visiting x, an edge at a marked vertex v whose far end is still
      unmarked is queued: either v is x and the edge was just pushed, or it
      was queued before and is not the popped edge e, whose ends are now
      both marked. */
  lemma FrontierEdge(adj: seq<seq<Edge>>, added: seq<Edge>, m: seq<bool>, queued: multiset<Edge>,
                     e: Edge, rest: multiset<Edge>, x: int, v: int, i: int)
    requires Stored(adj, added) && |m| == |adj| && rest + multiset{e} == queued
    requires (e.from == x || e.to == x) && 0 <= x < |m| && Marked(m, e.Other(x))
    requires 0 <= v < |adj| && 0 <= i < |adj[v]| && Marked(m[x := true], v)
    requires !Marked(m[x := true], adj[v][i].Other(v))
    requires v != x ==> adj[v][i] in queued
    ensures adj[v][i] in rest + multiset(Crossing(adj[x], x, m[x := true]))
  {
    var z := adj[v][i];
    if v == x {
      CrossingMember(adj[x], x, m[x := true], z);
    } else {
      assert z in Incident(added, v);
      IncidentMember(added, v, z);
      assert z != e;
      assert queued[z] == rest[z] + multiset{e}[z];
    }
  }

  /** Visiting x queues every edge that leaves the marked vertices; the
      popped edge e, now inside them, is no longer needed. */
  lemma AcceptFrontier(adj: seq<seq<Edge>>, added: seq<Edge>, m: seq<bool>, queued: multiset<Edge>,
                       e: Edge, rest: multiset<Edge>, x: int)
    requires Stored(adj, added) && |m| == |adj| && Frontier(adj, m, queued)
    requires rest + multiset{e} == queued
    requires (e.from == x || e.to == x) && 0 <= x < |m| && Marked(m, e.Other(x))
    ensures Frontier(adj, m[x := true], rest + multiset(Crossing(adj[x], x, m[x := true])))
  {
    var m' := m[x := true];
    forall v, i | 0 <= v < |adj| && 0 <= i < |adj[v]| && Marked(m', v) && !Marked(m', adj[v][i].Other(v))
      ensures adj[v][i] in rest + multiset(Crossing(adj[x], x, m'))
    {
      assert v != x ==> Marked(m, v) && !Marked(m, adj[v][i].Other(v));
      FrontierEdge(adj, added, m, queued, e, rest, x, v, i);
    }
  }

  /** Visiting x keeps vertex 0 marked and every marked vertex reachable
      from it. */
  lemma AcceptRooted(adj: seq<seq<Edge>>, added: seq<Edge>, m: seq<bool>, e: Edge, x: int)
    requires Stored(adj, added) && |m| == |adj| && Rooted(adj, m) && e in added
    requires (e.from == x || e.to == x) && 0 <= x < |m| && !m[x] && Marked(m, e.Other(x))
    ensures Rooted(adj, m[x := true])
  {
    var y := e.Other(x);
    assert e.Other(y) == x;
    UnvisitedBelow(m, y);
    NeighboursWellFormed(adj, added);
    NeighbourAlong(adj, added, y, e);
    ReachStep(Neighbours(adj), 0, y, x);
  }

  /** Appending e, which joins the marked vertex e.Other(x) to the
      unmarked x, keeps the tree inside the marked vertices, one edge short
      of them, and its weight summed. */
  lemma AcceptTree(added: seq<Edge>, m: seq<bool>, tree: seq<Edge>, weight: int, e: Edge, x: int)
    requires TreeInside(added, m, tree) && Counted(|m|, m, tree) && weight == SumWeights(tree) && e in added
    requires (e.from == x || e.to == x) && 0 <= x < |m| && !m[x] && Marked(m, e.Other(x))
    ensures TreeInside(added, m[x := true], tree + [e]) && Counted(|m|, m[x := true], tree + [e])
    ensures weight + e.Weight() == SumWeights(tree + [e])
    ensures Unvisited(m[x := true]) < Unvisited(m)
  {
    UnvisitedMark(m, x);
    UnvisitedBelow(m, e.Other(x));
    assert (tree + [e])[..|tree|] == tree;
  }

  /** The edge e from the marked vertex e.Other(x) to the unmarked x grows
      the forest, since the tree's edges never leave the marked vertices,
      and the tree then reaches x through e.Other(x). */
  lemma AcceptReaches(added: seq<Edge>, m: seq<bool>, tree: seq<Edge>, e: Edge, x: int)
    requires TreeInside(added, m, tree) && TreeReaches(m, tree)
    requires (e.from == x || e.to == x) && 0 <= x < |m| && !m[x] && Marked(m, e.Other(x))
    ensures TreeReaches(m[x := true], tree + [e])
  {
    var n, o := |m|, e.Other(x);
    var g, g' := TreeGraph(tree, n), TreeGraph(tree + [e], n);
    TreeGraphSnoc(tree, n, e);
    var unmarked := seq(n, z requires 0 <= z < n => !m[z]);
    TreeGraphClosed(tree, n, m);
    TreeGraphClosed(tree, n, unmarked);
    if e.from == x {
      if Reachable(g, x, o) {
        ClosedReach(g, unmarked, x, o);
      }
    } else {
      if Reachable(g, o, x) {
        ClosedReach(g, m, o, x);
      }
    }
    ForestSnoc(tree, n, e);
    LinkJoins(g, e.from, e.to);
    var m' := m[x := true];
    forall v | 0 <= v < n && m'[v] ensures Reachable(g', 0, v) {
      if v == x {
        LinkKeepsReach(g, e.from, e.to, 0, o);
        ReachTrans(g', 0, o, x);
      } else {
        LinkKeepsReach(g, e.from, e.to, 0, v);
      }
    }
  }

  /** An edge from a marked vertex to the unmarked vertex x joins the tree,
      and x is visited. */
  lemma PrimAccept(adj: seq<seq<Edge>>, added: seq<Edge>, m: seq<bool>, queued: multiset<Edge>,
                   tree: seq<Edge>, weight: int, e: Edge, rest: multiset<Edge>, x: int)
    requires PrimState(adj, added, m, queued, tree, weight)
    requires rest + multiset{e} == queued && e in queued
    requires (e.from == x || e.to == x) && 0 <= x < |m| && !m[x] && Marked(m, e.Other(x))
    ensures PrimState(adj, added, m[x := true], rest + multiset(Crossing(adj[x], x, m[x := true])),
                      tree + [e], weight + e.Weight())
    ensures Unvisited(m[x := true]) < Unvisited(m)
  {
    AcceptQueued(adj, added, m, queued, e, rest, x);
    AcceptFrontier(adj, added, m, queued, e, rest, x);
    AcceptRooted(adj, added, m, e, x);
    AcceptTree(added, m, tree, weight, e, x);
    AcceptReaches(added, m, tree, e, x);
  }

  /** With nothing left in the queue the marked vertices are exactly
      those reachable from vertex 0. */
  lemma PrimEnd(adj: seq<seq<Edge>>, added: seq<Edge>, m: seq<bool>, tree: seq<Edge>, weight: int)
    requires PrimState(adj, added, m, multiset{}, tree, weight)
    requires |adj| > 0 ==> Unvisited(m) < |adj|
    ensures PrimOutcome(adj, added, tree, weight, m)
  {
    var g := Neighbours(adj);
    NeighboursWellFormed(adj, added);
    assert Closed(g, m);
    forall v | 0 <= v < |adj| && Reachable(g, 0, v) ensures m[v] {
      ClosedReach(g, m, 0, v);
    }
    var t := TreeGraph(tree, |adj|);
    TreeGraphClosed(tree, |adj|, m);
    forall v | 0 <= v < |adj| && Reachable(t, 0, v) ensures m[v] {
      ClosedReach(t, m, 0, v);
    }
    if |adj| > 0 && forall y :: 0 <= y < |adj| ==> Reachable(g, 0, y) {
      UnvisitedNone(m);
    }
  }

  /** The result of the corrected builder: reached marks exactly the
      vertices reachable from vertex 0, and exactly those the tree's edges
      connect to 0; the tree is a forest of added edges between reached
      vertices, one edge fewer than there are of them, so a spanning tree
      of 0's component; weight is its total, and on a connected graph the
      tree has |V| - 1 edges. */
  ghost predicate PrimOutcome(adj: seq<seq<Edge>>, added: seq<Edge>, tree: seq<Edge>, weight: int,
                              reached: seq<bool>)
  {
    |reached| == |adj|
    && (forall v :: 0 <= v < |adj| ==> (reached[v] <==> Reachable(Neighbours(adj), 0, v)))
    && TreeInside(added, reached, tree)
    && Forest(tree, |adj|)
    && (forall v :: 0 <= v < |adj| ==> (reached[v] <==> Reachable(TreeGraph(tree, |adj|), 0, v)))
    && (|adj| > 0 ==> |tree| == |adj| - 1 - Unvisited(reached))
    && (|adj| == 0 ==> tree == [])
    && weight == SumWeights(tree)
    && (|adj| > 0 && (forall y :: 0 <= y < |adj| ==> Reachable(Neighbours(adj), 0, y)) ==> |tree| == |adj| - 1)
  }

  /** One round of the loop on a non-empty queue: pop the lightest edge;
      drop it if both ends are marked, otherwise append it to the tree, add
      its weight and visit its unmarked end. */
  method PrimStep(wg: WeightGraph, marked: array<bool>, pq: EdgePQ, tree: seq<Edge>, weight: int)
    returns (tree': seq<Edge>, weight': int)
    requires wg.Valid() && marked.Length == |wg.adj| && |pq.items| > 0
    requires PrimState(wg.adj, wg.added, marked[..], multiset(EdgesOf(pq.items)), tree, weight)
    modifies marked, pq
    ensures PrimState(wg.adj, wg.added, marked[..], multiset(EdgesOf(pq.items)), tree', weight')
    ensures Unvisited(marked[..]) < old(Unvisited(marked[..]))
            || (Unvisited(marked[..]) == old(Unvisited(marked[..])) && |pq.items| < old(|pq.items|))
  {
    ghost var adj, added := wg.adj, wg.added;
    ghost var m, queued := marked[..], multiset(EdgesOf(pq.items));
    var e := HeapPop(pq);
    ghost var rest := multiset(EdgesOf(pq.items));
    AddedEnds(adj, added, e);
    var v := e.Either();
    var w := e.Other(v);
    if marked[v] && marked[w] {
      PrimDiscard(adj, added, m, queued, tree, weight, e, rest);
      tree', weight' := tree, weight;
      return;
    }
    tree', weight' := tree + [e], weight + e.Weight();
    if !marked[v] {
      PrimVisit(wg, v, marked, pq);
      PrimAccept(adj, added, m, queued, tree, weight, e, rest, v);
    } else {
      assert e.Other(w) == v;
      PrimVisit(wg, w, marked, pq);
      PrimAccept(adj, added, m, queued, tree, weight, e, rest, w);
    }
  }

  /** The loop: runs rounds until the queue is empty. */
  method PrimLoop(wg: WeightGraph, marked: array<bool>, pq: EdgePQ, tree: seq<Edge>, weight: int)
    returns (tree': seq<Edge>, weight': int)
    requires wg.Valid() && marked.Length == |wg.adj|
    requires PrimState(wg.adj, wg.added, marked[..], multiset(EdgesOf(pq.items)), tree, weight)
    modifies marked, pq
    ensures PrimState(wg.adj, wg.added, marked[..], multiset{}, tree', weight')
    ensures Unvisited(marked[..]) <= old(Unvisited(marked[..]))
    ensures old(|pq.items|) == 0 ==> tree' == tree && weight' == weight
  {
    tree', weight' := tree, weight;
    while pq.Len() != 0
      invariant PrimState(wg.adj, wg.added, marked[..], multiset(EdgesOf(pq.items)), tree', weight')
      invariant Unvisited(marked[..]) <= old(Unvisited(marked[..]))
      invariant old(|pq.items|) == 0 ==> |pq.items| == 0 && tree' == tree && weight' == weight
      decreases Unvisited(marked[..]), |pq.items|
    {
      tree', weight' := PrimStep(wg, marked, pq, tree', weight');
    }
    assert EdgesOf(pq.items) == [];
  }

  /** BuildLazyPrimMST with the queue allocated but otherwise as written:
      no vertex is visited before the loop, so the loop finds the queue
      empty at once, and the weight field is never assigned. */
  method UnseededPrim(wg: WeightGraph) returns (p: Spanning)
    requires wg.Valid()
    ensures p.Edges() == [] && p.Weight() == 0
  {
    var pq := new EdgePQ();
    var marked := new bool[wg.V()](_ => false);
    PrimEmpty(wg.adj, wg.added, marked[..]);
    assert EdgesOf(pq.items) == [];
    var tree, weight := PrimLoop(wg, marked, pq, [], 0);
    p := Spanning(tree, 0);
  }

  /** BuildLazyPrimMST as evidently intended: an allocated queue, vertex 0
      visited first, and the weight of every tree edge added up. */
  method BuildLazyPrimMST(wg: WeightGraph) returns (p: Spanning, ghost reached: seq<bool>)
    requires wg.Valid()
    ensures PrimOutcome(wg.adj, wg.added, p.Edges(), p.Weight(), reached)
    ensures forall k :: 0 <= k < |p.Edges()| ==> p.Edges()[k] in wg.added && p.Edges()[k].from != p.Edges()[k].to
    ensures p.Weight() == SumWeights(p.Edges())
    ensures |wg.adj| == 0 ==> p.Edges() == []
    ensures Forest(p.Edges(), |wg.adj|)
    ensures forall v :: 0 <= v < |wg.adj| ==>
              (Reachable(Neighbours(wg.adj), 0, v) <==> Reachable(TreeGraph(p.Edges(), |wg.adj|), 0, v))
    ensures |wg.adj| > 0 && (forall y :: 0 <= y < |wg.adj| ==> Reachable(Neighbours(wg.adj), 0, y)) ==>
              |p.Edges()| == |wg.adj| - 1
  {
    ghost var adj, added := wg.adj, wg.added;
    var pq := new EdgePQ();
    var marked := new bool[wg.V()](_ => false);
    ghost var m := marked[..];
    PrimEmpty(adj, added, m);
    assert EdgesOf(pq.items) == [];
    if wg.V() > 0 {
      PrimVisit(wg, 0, marked, pq);
      PrimSeed(adj, added, m);
    }
    var tree, weight := PrimLoop(wg, marked, pq, [], 0);
    PrimEnd(adj, added, marked[..], tree, weight);
    p := Spanning(tree, weight);
    reached := marked[..];
    OutcomeSpans(adj, added, tree, weight, reached);
  }

  /** What PrimOutcome says of the tree alone: a forest of added edges,
      no self-loops, weighing weight, connecting 0 to exactly the vertices
      the graph connects to 0. */
  lemma OutcomeSpans(adj: seq<seq<Edge>>, added: seq<Edge>, tree: seq<Edge>, weight: int, reached: seq<bool>)
    requires PrimOutcome(adj, added, tree, weight, reached)
    ensures forall k :: 0 <= k < |tree| ==> tree[k] in added && tree[k].from != tree[k].to
    ensures Forest(tree, |adj|)
    ensures forall v :: 0 <= v < |adj| ==>
              (Reachable(Neighbours(adj), 0, v) <==> Reachable(TreeGraph(tree, |adj|), 0, v))
  {
  }

  /** On two vertices joined by one edge the corrected builder returns that
      edge. */
  lemma OneEdgeOutcome(adj: seq<seq<Edge>>, added: seq<Edge>, tree: seq<Edge>, weight: int, reached: seq<bool>)
    requires adj == [[Edge(5, 0, 1)], [Edge(5, 0, 1)]] && added == [Edge(5, 0, 1)]
    requires PrimOutcome(adj, added, tree, weight, reached)
    ensures tree == [Edge(5, 0, 1)] && weight == 5
  {
    var g := Neighbours(adj);
    assert g[0][0] == 1 && g[1][0] == 0;
    assert g[0] == [1] && g[1] == [0];
    assert g == [[1], [0]];
    assert WellFormed(g);
    ReachSelf(g, 0);
    ReachEdge(g, 0, 1);
    assert forall y :: 0 <= y < 2 ==> Reachable(g, 0, y);
    assert |tree| == 1 && tree[0] in added;
    assert tree == [tree[0]];
  }

  /** Two vertices joined by one edge of weight 5: the unseeded loop
      returns no edge, the corrected builder returns that edge. */
  method PrimDiffers() returns (unseeded: Spanning, seeded: Spanning)
    ensures unseeded.Edges() == [] && unseeded.Weight() == 0
    ensures seeded.Edges() == [Edge(5, 0, 1)] && seeded.Weight() == 5
  {
    var wg := new WeightGraph(2);
    var ed := Edge(5, 0, 1);
    wg.AddEdge(ed);
    assert wg.adj[0] == [ed] && wg.adj[1] == [ed];
    assert wg.adj == [[ed], [ed]];
    unseeded := UnseededPrim(wg);
    ghost var reached;
    seeded, reached := BuildLazyPrimMST(wg);
    OneEdgeOutcome(wg.adj, wg.added, seeded.Edges(), seeded.Weight(), reached);
  }
}
