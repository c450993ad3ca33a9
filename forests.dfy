// The shape of the edge sets the spanning-tree builders return: the graph
// their edges make on the vertices, and what it means for a list of edges,
// taken one at a time, to grow a forest.
module Forests {
  import opened Graphs
  import opened WeightGraphs
  import Sequences

  /** g with the undirected edge a-b added: b listed at a, then a at b.
      Ends outside g add nothing. */
  ghost function Link(g: Adjacency, a: int, b: int): (h: Adjacency)
    ensures |h| == |g|
  {
    if 0 <= a < |g| && 0 <= b < |g| then
      var h := g[a := g[a] + [b]];
      h[b := h[b] + [a]]
    else g
  }

  /** The vertex graph of the edges of tree over n vertices: every edge is
      listed at both of its ends. */
  ghost function TreeGraph(tree: seq<Edge>, n: nat): (g: Adjacency)
    ensures |g| == n
  {
    if tree == [] then seq(n, v => [])
    else Link(TreeGraph(tree[..|tree| - 1], n), tree[|tree| - 1].from, tree[|tree| - 1].to)
  }

  /** Edge k of tree joins two vertices of the n that the edges before it
      do not connect. */
  ghost predicate Bridges(tree: seq<Edge>, n: nat, k: int)
    requires 0 <= k < |tree|
  {
    0 <= tree[k].from < n && 0 <= tree[k].to < n
    && !Reachable(TreeGraph(tree[..k], n), tree[k].from, tree[k].to)
  }

  /** Every edge of tree joins two different trees of the forest grown by
      the edges before it, so no edge closes a cycle. */
  ghost predicate Forest(tree: seq<Edge>, n: nat)
  {
    forall k :: 0 <= k < |tree| ==> Bridges(tree, n, k)
  }

  lemma TreeGraphSnoc(tree: seq<Edge>, n: nat, e: Edge)
    ensures TreeGraph(tree + [e], n) == Link(TreeGraph(tree, n), e.from, e.to)
  {
    assert (tree + [e])[..|tree|] == tree;
  }

  /** Adding an edge keeps every list: what g lists at v, Link lists too. */
  lemma LinkGrows(g: Adjacency, a: int, b: int, v: int, z: int)
    requires 0 <= v < |g| && z in g[v]
    ensures z in Link(g, a, b)[v]
  {
    if 0 <= a < |g| && 0 <= b < |g| {
      var h := g[a := g[a] + [b]];
      assert z in h[v] by {
        if v == a {
          assert h[v] == g[v] + [b];
        }
      }
      if v == b {
        assert Link(g, a, b)[v] == h[v] + [a];
      }
    }
  }

  /** A path of g is still a path once an edge is added. */
  lemma LinkKeepsReach(g: Adjacency, a: int, b: int, x: int, y: int)
    requires Reachable(g, x, y)
    ensures Reachable(Link(g, a, b), x, y)
  {
    var p :| PathFromTo(g, p, x, y);
    forall i | 0 <= i < |p| - 1 ensures p[i + 1] in Link(g, a, b)[p[i]] {
      LinkGrows(g, a, b, p[i], p[i + 1]);
    }
    assert PathFromTo(Link(g, a, b), p, x, y);
  }

  /** The added edge joins its ends both ways. */
  lemma LinkJoins(g: Adjacency, a: int, b: int)
    requires 0 <= a < |g| && 0 <= b < |g|
    ensures Reachable(Link(g, a, b), a, b) && Reachable(Link(g, a, b), b, a)
  {
    var h := Link(g, a, b);
    var h1 := g[a := g[a] + [b]];
    assert b in h1[a];
    LinkGrows(h1, b, b, a, b);
    assert h[b] == h1[b] + [a];
    assert PathFromTo(h, [a, b], a, b);
    assert PathFromTo(h, [b, a], b, a);
  }

  /** An edge between two vertices on the same side of m keeps m closed. */
  lemma LinkClosed(g: Adjacency, m: seq<bool>, a: int, b: int)
    requires Closed(g, m) && 0 <= a < |g| && 0 <= b < |g| && m[a] == m[b]
    ensures Closed(Link(g, a, b), m)
  {
    var h1 := g[a := g[a] + [b]];
    var h := Link(g, a, b);
    forall v, i | 0 <= v < |h| && m[v] && 0 <= i < |h[v]| ensures 0 <= h[v][i] < |h| && m[h[v][i]] {
      if v == b && i == |h1[b]| {
        assert h[v][i] == a;
      } else if v == a && i == |g[a]| {
        assert h[v][i] == b;
      } else {
        assert h[v][i] == g[v][i];
      }
    }
  }

  /** When every edge of tree stays on one side of m, nothing crosses m in
      the tree's graph. */
  lemma {:induction false} TreeGraphClosed(tree: seq<Edge>, n: nat, m: seq<bool>)
    requires |m| == n
    requires forall k :: 0 <= k < |tree| ==>
      0 <= tree[k].from < n && 0 <= tree[k].to < n && m[tree[k].from] == m[tree[k].to]
    ensures Closed(TreeGraph(tree, n), m)
  {
    if tree != [] {
      var prefix, e := tree[..|tree| - 1], tree[|tree| - 1];
      assert forall k :: 0 <= k < |prefix| ==> prefix[k] == tree[k];
      TreeGraphClosed(prefix, n, m);
      LinkClosed(TreeGraph(prefix, n), m, e.from, e.to);
    }
  }

  /** Each edge of tree joins its ends in the tree's graph. */
  lemma {:induction false} TreeGraphHas(tree: seq<Edge>, n: nat, j: int)
    requires 0 <= j < |tree|
    requires forall k :: 0 <= k < |tree| ==> 0 <= tree[k].from < n && 0 <= tree[k].to < n
    ensures Reachable(TreeGraph(tree, n), tree[j].from, tree[j].to)
  {
    var prefix, e := tree[..|tree| - 1], tree[|tree| - 1];
    if j == |tree| - 1 {
      LinkJoins(TreeGraph(prefix, n), e.from, e.to);
    } else {
      assert forall k :: 0 <= k < |prefix| ==> prefix[k] == tree[k];
      TreeGraphHas(prefix, n, j);
      LinkKeepsReach(TreeGraph(prefix, n), e.from, e.to, tree[j].from, tree[j].to);
    }
  }

  /** An edge whose ends the forest does not yet connect grows it. */
  lemma ForestSnoc(tree: seq<Edge>, n: nat, e: Edge)
    requires Forest(tree, n) && 0 <= e.from < n && 0 <= e.to < n
    requires !Reachable(TreeGraph(tree, n), e.from, e.to)
    ensures Forest(tree + [e], n)
  {
    var tree' := tree + [e];
    forall k | 0 <= k < |tree'| ensures Bridges(tree', n, k) {
      assert tree'[..k] == if k < |tree| then tree[..k] else tree;
      assert k < |tree| ==> Bridges(tree, n, k);
    }
  }

  /** A forest has no self-loop and no edge twice. */
  lemma ForestSimple(tree: seq<Edge>, n: nat)
    requires Forest(tree, n)
    ensures forall k :: 0 <= k < |tree| ==> tree[k].from != tree[k].to
    ensures Sequences.Distinct(tree)
  {
    forall k | 0 <= k < |tree| ensures tree[k].from != tree[k].to {
      assert Bridges(tree, n, k);
      if tree[k].from == tree[k].to {
        ReachSelf(TreeGraph(tree[..k], n), tree[k].from);
      }
    }
    forall j, k | 0 <= j < k < |tree| ensures tree[j] != tree[k] {
      assert Bridges(tree, n, k);
      if tree[j] == tree[k] {
        var prefix := tree[..k];
        forall i | 0 <= i < |prefix| ensures 0 <= prefix[i].from < n && 0 <= prefix[i].to < n {
          assert Bridges(tree, n, i);
        }
        TreeGraphHas(prefix, n, j);
      }
    }
  }
}
