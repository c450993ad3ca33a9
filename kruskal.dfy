// Kruskal's minimum spanning tree: every edge goes into a priority queue,
// and the lightest edge left is taken whenever its ends are still in
// different union-find trees.
module Kruskal {
  import opened Graphs
  import opened WeightGraphs
  import opened Mst
  import opened Forests
  import UnionFind

  /** The edges of s come in order of nondecreasing weight. */
  ghost predicate Nondecreasing(s: seq<Edge>)
  {
    forall i, j :: 0 <= i < j < |s| ==> s[i].Weight() <= s[j].Weight()
  }

  /** Both ends of every edge of s are vertices below n, and share a class. */
  ghost predicate Inside(s: seq<Edge>, classes: seq<int>)
  {
    forall k :: 0 <= k < |s| ==>
      0 <= s[k].from < |classes| && 0 <= s[k].to < |classes| && classes[s[k].from] == classes[s[k].to]
  }

  /** Any two sites of one class are connected by edges of tree. */
  ghost predicate TreeJoins(tree: seq<Edge>, classes: seq<int>, n: nat)
  {
    forall x, y {:trigger Reachable(TreeGraph(tree, n), x, y)} ::
      0 <= x < |classes| && 0 <= y < |classes| && classes[x] == classes[y] ==>
      Reachable(TreeGraph(tree, n), x, y)
  }

  /** The state of the main loop. Every edge of all is in the tree, among
      the skipped ones or still queued, and once only; the tree and the
      skipped edges lie inside classes, the trees of the union-find; there
      are as many trees as vertices less tree edges; the tree so far is a
      forest whose edges connect every class, it is sorted, weighs weight,
      and no queued edge is lighter than one of its edges. */
  ghost predicate Progress(all: seq<Edge>, queued: multiset<Edge>, classes: seq<int>, count: int,
                           n: int, tree: seq<Edge>, skipped: seq<Edge>, weight: int)
  {
    multiset(tree) + multiset(skipped) + queued == multiset(all)
    && |classes| == n && count == n - |tree|
    && (forall x :: x in queued ==> 0 <= x.from < n && 0 <= x.to < n)
    && Inside(tree, classes) && Inside(skipped, classes)
    && n >= 0 && Forest(tree, n) && TreeJoins(tree, classes, n)
    && weight == SumWeights(tree)
    && Nondecreasing(tree)
    && (forall k, x :: 0 <= k < |tree| && x in queued ==> tree[k].Weight() <= x.Weight())
  }

  lemma ProgressFirst(all: seq<Edge>, queued: multiset<Edge>, classes: seq<int>, n: int)
    requires queued == multiset(all)
    requires forall x :: x in all ==> 0 <= x.from < n && 0 <= x.to < n
    requires |classes| == n && forall x :: 0 <= x < n ==> classes[x] == x
    ensures Progress(all, queued, classes, n, n, [], [], 0)
  {
    forall x | 0 <= x < n ensures Reachable(TreeGraph([], n), x, x) {
      ReachSelf(TreeGraph([], n), x);
    }
    forall x | x in queued ensures 0 <= x.from < n && 0 <= x.to < n {
      assert x in multiset(all);
    }
  }

  /** The edge e between two classes grows the forest, and once its
      classes are merged the new tree still connects every class: a site of
      e.from's class reaches e.from, crosses e and reaches any site of
      e.to's class. */
  lemma AcceptJoins(tree: seq<Edge>, classes: seq<int>, classes': seq<int>, n: nat, e: Edge)
    requires |classes| == n && |classes'| == n && Inside(tree, classes)
    requires Forest(tree, n) && TreeJoins(tree, classes, n)
    requires 0 <= e.from < n && 0 <= e.to < n && classes[e.from] != classes[e.to]
    requires forall x, y :: 0 <= x < n && 0 <= y < n ==>
      (classes'[x] == classes'[y] <==>
        classes[x] == classes[y]
        || (classes[x] == classes[e.from] && classes[y] == classes[e.to])
        || (classes[x] == classes[e.to] && classes[y] == classes[e.from]))
    ensures Forest(tree + [e], n) && TreeJoins(tree + [e], classes', n)
  {
    var g := TreeGraph(tree, n);
    var g' := TreeGraph(tree + [e], n);
    TreeGraphSnoc(tree, n, e);
    var m := seq(n, z requires 0 <= z < n => classes[z] == classes[e.from]);
    TreeGraphClosed(tree, n, m);
    if Reachable(g, e.from, e.to) {
      ClosedReach(g, m, e.from, e.to);
    }
    ForestSnoc(tree, n, e);
    LinkJoins(g, e.from, e.to);
    forall x, y | 0 <= x < n && 0 <= y < n && classes'[x] == classes'[y] ensures Reachable(g', x, y) {
      if classes[x] == classes[y] {
        LinkKeepsReach(g, e.from, e.to, x, y);
      } else if classes[x] == classes[e.from] && classes[y] == classes[e.to] {
        LinkKeepsReach(g, e.from, e.to, x, e.from);
        LinkKeepsReach(g, e.from, e.to, e.to, y);
        ReachTrans(g', x, e.from, e.to);
        ReachTrans(g', x, e.to, y);
      } else {
        LinkKeepsReach(g, e.from, e.to, x, e.to);
        LinkKeepsReach(g, e.from, e.to, e.from, y);
        ReachTrans(g', x, e.to, e.from);
        ReachTrans(g', x, e.from, y);
      }
    }
  }

  /** Taking the popped edge e into the tree, after the union that merged
      the classes of its ends; AcceptJoins gives the forest's shape. */
  lemma ProgressAccept(all: seq<Edge>, queued: multiset<Edge>, classes: seq<int>, count: int, n: int,
                       tree: seq<Edge>, skipped: seq<Edge>, weight: int,
                       e: Edge, queued': multiset<Edge>, classes': seq<int>, count': int)
    requires Progress(all, queued, classes, count, n, tree, skipped, weight)
    requires count' == count - 1
    requires queued' + multiset{e} == queued
    requires forall x :: x in queued ==> e.Weight() <= x.Weight()
    requires |classes'| == n && 0 <= e.from < n && 0 <= e.to < n && classes'[e.from] == classes'[e.to]
    requires forall x, y :: 0 <= x < n && 0 <= y < n && classes[x] == classes[y] ==> classes'[x] == classes'[y]
    requires Forest(tree + [e], n) && TreeJoins(tree + [e], classes', n)
    ensures Progress(all, queued', classes', count', n, tree + [e], skipped, weight + e.Weight())
  {
    var tree' := tree + [e];
    assert e in queued;
    assert tree'[..|tree'| - 1] == tree;
    forall x | x in queued' ensures x in queued {
      assert queued[x] == queued'[x] + multiset{e}[x];
    }
    AcceptOrder(tree, queued, queued', e);
    InsideMerged(tree, classes, classes');
    InsideMerged(skipped, classes, classes');
    InsideSnoc(tree, classes', e);
    assert multiset(tree') == multiset(tree) + multiset{e};
  }

  /** The lightest queued edge, appended, keeps the tree sorted and no
      lighter than what stays queued. */
  lemma AcceptOrder(tree: seq<Edge>, queued: multiset<Edge>, queued': multiset<Edge>, e: Edge)
    requires Nondecreasing(tree) && (forall k, x :: 0 <= k < |tree| && x in queued ==> tree[k].Weight() <= x.Weight())
    requires e in queued && (forall x :: x in queued ==> e.Weight() <= x.Weight())
    requires forall x :: x in queued' ==> x in queued
    ensures Nondecreasing(tree + [e])
    ensures forall k, x :: 0 <= k < |tree| + 1 && x in queued' ==> (tree + [e])[k].Weight() <= x.Weight()
  {
    var tree' := tree + [e];
    forall i, j | 0 <= i < j < |tree'| ensures tree'[i].Weight() <= tree'[j].Weight() {
      if j < |tree| {
        assert tree'[i] == tree[i] && tree'[j] == tree[j];
      } else {
        assert tree'[i] == tree[i];
      }
    }
    forall k, x | 0 <= k < |tree'| && x in queued' ensures tree'[k].Weight() <= x.Weight() {
      if k < |tree| {
        assert tree'[k] == tree[k];
      }
    }
  }

  /** Merging classes keeps every edge inside one. */
  lemma InsideMerged(s: seq<Edge>, classes: seq<int>, classes': seq<int>)
    requires Inside(s, classes) && |classes'| == |classes|
    requires forall x, y :: 0 <= x < |classes| && 0 <= y < |classes| && classes[x] == classes[y] ==>
      classes'[x] == classes'[y]
    ensures Inside(s, classes')
  {
  }

  /** Appending an edge inside a class keeps a list inside the classes. */
  lemma InsideSnoc(s: seq<Edge>, classes: seq<int>, e: Edge)
    requires Inside(s, classes)
    requires 0 <= e.from < |classes| && 0 <= e.to < |classes| && classes[e.from] == classes[e.to]
    ensures Inside(s + [e], classes)
  {
    forall k | 0 <= k < |s| + 1
      ensures 0 <= (s + [e])[k].from < |classes| && 0 <= (s + [e])[k].to < |classes|
              && classes[(s + [e])[k].from] == classes[(s + [e])[k].to]
    {
      if k < |s| {
        assert (s + [e])[k] == s[k];
      }
    }
  }

  /** Dropping the popped edge e, whose ends already share a class. */
  lemma ProgressSkip(all: seq<Edge>, queued: multiset<Edge>, classes: seq<int>, count: int, n: int,
                     tree: seq<Edge>, skipped: seq<Edge>, weight: int, e: Edge, queued': multiset<Edge>)
    requires Progress(all, queued, classes, count, n, tree, skipped, weight)
    requires queued' + multiset{e} == queued
    requires 0 <= e.from < n && 0 <= e.to < n && classes[e.from] == classes[e.to]
    ensures Progress(all, queued', classes, count, n, tree, skipped + [e], weight)
  {
    var skipped' := skipped + [e];
    forall x | x in queued' ensures x in queued {
      assert queued[x] == queued'[x] + multiset{e}[x];
    }
    InsideSnoc(skipped, classes, e);
    assert multiset(skipped') == multiset(skipped) + multiset{e};
  }

  /** With the queue empty, every edge of all lies inside the classes. */
  lemma ProgressDone(all: seq<Edge>, classes: seq<int>, count: int, n: int,
                     tree: seq<Edge>, skipped: seq<Edge>, weight: int, x: Edge)
    requires Progress(all, multiset{}, classes, count, n, tree, skipped, weight)
    requires x in all
    ensures 0 <= x.from < n && 0 <= x.to < n && classes[x.from] == classes[x.to]
  {
    assert x in multiset(all);
    if x in multiset(tree) {
      var k :| 0 <= k < |tree| && tree[k] == x;
    } else {
      var k :| 0 <= k < |skipped| && skipped[k] == x;
    }
  }

  /** Every tree of the union-find lies inside one class, so a class reaches
      no vertex outside it through the edges of the graph. */
  lemma ClassesAlongPaths(adj: seq<seq<Edge>>, added: seq<Edge>, classes: seq<int>, s: int, t: int)
    requires |classes| == |adj| && Stored(adj, added)
    requires Inside(added, classes)
    requires 0 <= s < |adj| && Reachable(Neighbours(adj), s, t)
    ensures 0 <= t < |adj| && classes[t] == classes[s]
  {
    var g := Neighbours(adj);
    var m := seq(|adj|, z requires 0 <= z < |adj| => classes[z] == classes[s]);
    forall v, i | 0 <= v < |g| && m[v] && 0 <= i < |g[v]| ensures 0 <= g[v][i] < |g| && m[g[v][i]] {
      var e := adj[v][i];
      assert e in Incident(added, v);
      IncidentMember(added, v, e);
      var k :| 0 <= k < |added| && added[k] == e;
    }
    ClosedReach(g, m, s, t);
  }

  /** What Kruskal's algorithm promises of the tree it builds over the
      store adj of the edges added: its edges are among the graph's edges
      (self-loops never, and no edge more often than it was added), weight
      is their total, they come lightest first, and both ends of every tree
      edge and of every graph edge are in one class of the final union-find.
      The tree is a forest, and any two vertices the graph connects are
      connected by tree edges: it is a spanning forest. The classes number
      the vertices less the tree edges, and on a connected graph the tree
      has one edge fewer than there are vertices. */
  ghost predicate Outcome(adj: seq<seq<Edge>>, added: seq<Edge>, tree: seq<Edge>, weight: int, classes: seq<int>)
  {
    multiset(tree) <= multiset(NonLoops(added))
    && weight == SumWeights(tree)
    && Nondecreasing(tree)
    && |classes| == |adj| && Inside(tree, classes) && Inside(added, classes)
    && |UnionFind.Found(classes)| == |adj| - |tree|
    && Forest(tree, |adj|)
    && (forall x, y :: 0 <= x < |adj| && Reachable(Neighbours(adj), x, y) ==>
          Reachable(TreeGraph(tree, |adj|), x, y))
    && (|adj| > 0 ==> |tree| <= |adj| - 1)
    && (|adj| > 0 && (forall y :: 0 <= y < |adj| ==> Reachable(Neighbours(adj), 0, y)) ==> |tree| == |adj| - 1)
  }

  /** There are never more tree edges than vertices less one: the forest
      always has a tree left. */
  lemma ProgressBound(uf: UnionFind.UF, queued: multiset<Edge>, all: seq<Edge>, n: int,
                      tree: seq<Edge>, skipped: seq<Edge>, weight: int)
    requires uf.Valid() && uf.n == n
    requires Progress(all, queued, uf.root, uf.Count(), n, tree, skipped, weight)
    ensures n > 0 ==> |tree| <= n - 1
  {
    if n > 0 {
      UnionFind.SomeTree(uf);
    }
  }

  /** What the finished loop leaves: with the queue empty, every added edge
      lies inside the final trees, the tree is drawn from the edges Edges
      reported, the trees number the vertices less the tree edges, and on a
      connected graph there is one tree. */
  lemma ProgressEnd(uf: UnionFind.UF, adj: seq<seq<Edge>>, added: seq<Edge>, all: seq<Edge>, n: int,
                    tree: seq<Edge>, skipped: seq<Edge>, weight: int)
    requires uf.Valid() && uf.n == n && |adj| == n && Stored(adj, added)
    requires multiset(all) == multiset(NonLoops(added))
    requires Progress(all, multiset{}, uf.root, uf.Count(), n, tree, skipped, weight)
    ensures Outcome(adj, added, tree, weight, uf.root)
  {
    var classes := uf.root;
    ProgressBound(uf, multiset{}, all, n, tree, skipped, weight);
    EndInside(adj, added, all, classes, uf.Count(), n, tree, skipped, weight);
    UnionFind.CountIsDistinctRoots(uf);
    EndSpans(adj, added, classes, tree);
    if n > 0 && forall y :: 0 <= y < n ==> Reachable(Neighbours(adj), 0, y) {
      forall y | 0 <= y < n ensures uf.root[y] == uf.root[0] {
        ClassesAlongPaths(adj, added, classes, 0, y);
      }
      UnionFind.OneTree(uf);
    }
  }

  /** With the queue empty, every added edge lies inside the classes:
      self-loops trivially, the others as edges Edges reported. */
  lemma EndInside(adj: seq<seq<Edge>>, added: seq<Edge>, all: seq<Edge>, classes: seq<int>, count: int, n: int,
                  tree: seq<Edge>, skipped: seq<Edge>, weight: int)
    requires |adj| == n && Stored(adj, added)
    requires multiset(all) == multiset(NonLoops(added))
    requires Progress(all, multiset{}, classes, count, n, tree, skipped, weight)
    ensures Inside(added, classes)
  {
    forall j | 0 <= j < |added|
      ensures 0 <= added[j].from < n && 0 <= added[j].to < n && classes[added[j].from] == classes[added[j].to]
    {
      var x := added[j];
      AddedEnds(adj, added, x);
      if x.from != x.to {
        NonLoopsMember(added, x);
        ProgressDone(all, classes, count, n, tree, skipped, weight, x);
      }
    }
  }

  /** Two vertices the graph connects share a class, so tree edges
      connect them. */
  lemma EndSpans(adj: seq<seq<Edge>>, added: seq<Edge>, classes: seq<int>, tree: seq<Edge>)
    requires |classes| == |adj| && Stored(adj, added)
    requires Inside(added, classes) && TreeJoins(tree, classes, |adj|)
    ensures forall x, y :: 0 <= x < |adj| && Reachable(Neighbours(adj), x, y) ==>
              Reachable(TreeGraph(tree, |adj|), x, y)
  {
    forall x, y | 0 <= x < |adj| && Reachable(Neighbours(adj), x, y)
      ensures Reachable(TreeGraph(tree, |adj|), x, y)
    {
      ClassesAlongPaths(adj, added, classes, x, y);
    }
  }

  /** The queue after pushing every edge of all, one by one. */
  method QueueAll(all: seq<Edge>) returns (pq: EdgePQ)
    ensures fresh(pq) && multiset(EdgesOf(pq.items)) == multiset(all)
  {
    pq := new EdgePQ();
    var i := 0;
    while i < |all|
      invariant 0 <= i <= |all|
      invariant multiset(EdgesOf(pq.items)) == multiset(all[..i])
    {
      HeapPush(pq, all[i]);
      assert all[..i + 1] == all[..i] + [all[i]];
      i := i + 1;
    }
    assert all[..i] == all;
  }

  /** One round of the main loop: pops the lightest queued edge and, when
      its ends are in different trees, unions them and adds the edge to the
      tree and its weight to the total; otherwise the edge is dropped. */
  method Consider(pq: EdgePQ, uf: UnionFind.UF, tree: seq<Edge>, weight: int,
                  ghost all: seq<Edge>, ghost n: int, ghost skipped: seq<Edge>)
    returns (tree': seq<Edge>, weight': int, ghost skipped': seq<Edge>)
    requires uf.Valid() && uf.n == n && |pq.items| > 0
    requires Progress(all, multiset(EdgesOf(pq.items)), uf.root, uf.Count(), n, tree, skipped, weight)
    modifies pq, uf, uf.id, uf.sz
    ensures uf.Valid() && uf.n == n && |pq.items| == old(|pq.items|) - 1
    ensures Progress(all, multiset(EdgesOf(pq.items)), uf.root, uf.Count(), n, tree', skipped', weight')
  {
    ghost var queued, ids, sizes, roots, count := multiset(EdgesOf(pq.items)), uf.id[..], uf.sz[..], uf.root, uf.Count();
    var e := HeapPop(pq);
    var v := e.Either();
    var w := e.Other(v);
    var c := uf.Connected(v, w);
    if !c {
      uf.Union(v, w);
      UnionFind.JoinedKeeps(ids, sizes, roots, uf.id[..], uf.sz[..], uf.root, v, w);
      AcceptJoins(tree, roots, uf.root, n, e);
      ProgressAccept(all, queued, roots, count, n, tree, skipped, weight,
                     e, multiset(EdgesOf(pq.items)), uf.root, uf.Count());
      tree', weight', skipped' := tree + [e], weight + e.Weight(), skipped;
    } else {
      ProgressSkip(all, queued, roots, count, n, tree, skipped, weight, e, multiset(EdgesOf(pq.items)));
      tree', weight', skipped' := tree, weight, skipped + [e];
    }
  }

  /** Every edge Edges reports joins two vertices of the graph. */
  lemma EdgesInRange(added: seq<Edge>, n: int, x: Edge)
    requires forall k :: 0 <= k < |added| ==> 0 <= added[k].from < n && 0 <= added[k].to < n
    requires x in multiset(NonLoops(added))
    ensures 0 <= x.from < n && 0 <= x.to < n
  {
    NonLoopsMember(added, x);
    var j :| 0 <= j < |added| && added[j] == x;
  }

  /** The main loop: rounds of Consider until the queue is empty or the
      tree has a vertex's worth of edges too many, which never happens. */
  method Grow(pq: EdgePQ, uf: UnionFind.UF, ghost all: seq<Edge>, ghost adj: seq<seq<Edge>>, ghost added: seq<Edge>)
    returns (tree: seq<Edge>, weight: int, ghost classes: seq<int>)
    requires uf.Valid() && uf.n == |adj| && Stored(adj, added)
    requires multiset(all) == multiset(NonLoops(added))
    requires Progress(all, multiset(EdgesOf(pq.items)), uf.root, uf.Count(), |adj|, [], [], 0)
    modifies pq, uf, uf.id, uf.sz
    ensures Outcome(adj, added, tree, weight, classes)
  {
    var n := uf.n;
    tree, weight := [], 0;
    ghost var skipped: seq<Edge> := [];
    while pq.Len() != 0 && |tree| <= n - 1
      invariant uf.Valid() && uf.n == n
      invariant Progress(all, multiset(EdgesOf(pq.items)), uf.root, uf.Count(), n, tree, skipped, weight)
      decreases |pq.items|
    {
      tree, weight, skipped := Consider(pq, uf, tree, weight, all, n, skipped);
    }
    ProgressBound(uf, multiset(EdgesOf(pq.items)), all, n, tree, skipped, weight);
    assert multiset(EdgesOf(pq.items)) == multiset{};
    ProgressEnd(uf, adj, added, all, n, tree, skipped, weight);
    classes := uf.root;
  }

  /** BuildKruskalMST: the edges of the graph, lightest first, each taken
      when its ends are not yet connected. classes is the root of every
      vertex in the final union-find. */
  method BuildKruskalMST(wg: WeightGraph) returns (k: Spanning, ghost classes: seq<int>)
    requires wg.Valid()
    ensures Outcome(wg.adj, wg.added, k.Edges(), k.Weight(), classes)
    ensures multiset(k.Edges()) <= multiset(NonLoops(wg.added))
    ensures k.Weight() == SumWeights(k.Edges()) && Nondecreasing(k.Edges())
    ensures Forest(k.Edges(), |wg.adj|)
    ensures forall x, y :: 0 <= x < |wg.adj| && Reachable(Neighbours(wg.adj), x, y) ==>
              Reachable(TreeGraph(k.Edges(), |wg.adj|), x, y)
    ensures |wg.adj| > 0 ==> |k.Edges()| <= |wg.adj| - 1
    ensures |wg.adj| > 0 && (forall y :: 0 <= y < |wg.adj| ==> Reachable(Neighbours(wg.adj), 0, y)) ==>
              |k.Edges()| == |wg.adj| - 1
  {
    ghost var adj, added := wg.adj, wg.added;
    var all := wg.Edges();
    var pq := QueueAll(all);
    var n := wg.V();
    forall x | x in all ensures 0 <= x.from < n && 0 <= x.to < n {
      EdgesInRange(added, n, x);
    }
    var uf := new UnionFind.UF(n);
    ProgressFirst(all, multiset(EdgesOf(pq.items)), uf.root, n);
    var tree, weight;
    tree, weight, classes := Grow(pq, uf, all, adj, added);
    k := Spanning(tree, weight);
    assert wg.adj == adj && wg.added == added;
  }
}
