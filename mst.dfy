// What the spanning-tree builders share: the tree they return, and the
// priority-queue adapter they keep edges in, a slice of items, each an
// edge and the position it sits at. The container/heap
// package that drives it is not part of this model; HeapPush and HeapPop
// stand for its Push and Pop by what they achieve: insert an edge, and
// remove and return one of least weight, through the adapter's own
// methods.
module Mst {
  import opened Graphs
  import opened WeightGraphs

  /** The MST value of both builders: its edges and its total weight. */
  datatype Spanning = Spanning(tree: seq<Edge>, weight: int)
  {
    function Edges(): (r: seq<Edge>)
      ensures r == tree
    {
      tree
    }

    function Weight(): (r: int)
      ensures r == weight
    {
      weight
    }
  }

  /** The sum of the weights of s. */
  function SumWeights(s: seq<Edge>): int
  {
    if s == [] then 0 else SumWeights(s[..|s| - 1]) + s[|s| - 1].Weight()
  }

  /** The vertex graph of an edge-weighted store: x's neighbours are the
      other ends of the edges listed at x. */
  ghost function Neighbours(adj: seq<seq<Edge>>): (g: Adjacency)
    ensures |g| == |adj| && forall x :: 0 <= x < |adj| ==> |g[x]| == |adj[x]|
    ensures forall x, i :: 0 <= x < |adj| && 0 <= i < |adj[x]| ==> g[x][i] == adj[x][i].Other(x)
  {
    seq(|adj|, x requires 0 <= x < |adj| => seq(|adj[x]|, i requires 0 <= i < |adj[x]| => adj[x][i].Other(x)))
  }

  /** The neighbours of a store are vertices of it. */
  lemma NeighboursWellFormed(adj: seq<seq<Edge>>, added: seq<Edge>)
    requires Stored(adj, added)
    ensures WellFormed(Neighbours(adj))
  {
    var g := Neighbours(adj);
    forall v, i | 0 <= v < |g| && 0 <= i < |g[v]| ensures 0 <= g[v][i] < |g| {
      assert adj[v][i] in Incident(added, v);
      IncidentMember(added, v, adj[v][i]);
      AddedEnds(adj, added, adj[v][i]);
    }
  }

  /** The other end of an added edge is a neighbour of either end. */
  lemma NeighbourAlong(adj: seq<seq<Edge>>, added: seq<Edge>, u: int, e: Edge)
    requires Stored(adj, added) && e in added && (e.from == u || e.to == u)
    ensures 0 <= u < |adj| && e.Other(u) in Neighbours(adj)[u]
  {
    AddedEnds(adj, added, e);
    IncidentComplete(added, u, e);
    var i :| 0 <= i < |adj[u]| && adj[u][i] == e;
    assert Neighbours(adj)[u][i] == e.Other(u);
  }

  /** An edge and its position in the queue. */
  datatype Item = Item(edge: Edge, index: int)

  /** The edges of the items, in slice order. */
  function EdgesOf(items: seq<Item>): (r: seq<Edge>)
    ensures |r| == |items| && forall k :: 0 <= k < |items| ==> r[k] == items[k].edge
  {
    seq(|items|, k requires 0 <= k < |items| => items[k].edge)
  }

  /** Every item records the position it sits at. */
  predicate Indexed(items: seq<Item>)
  {
    forall k :: 0 <= k < |items| ==> items[k].index == k
  }

  /** Exchanging two entries keeps the multiset. */
  lemma SwapKeeps(s: seq<Edge>, v: int, w: int)
    requires 0 <= v < |s| && 0 <= w < |s|
    ensures multiset(s[v := s[w]][w := s[v]]) == multiset(s)
  {
    if v != w {
      var t := s[v := s[w]];
      assert multiset(t) == multiset(s) - multiset{s[v]} + multiset{s[w]};
      assert t[w] == s[w];
      assert multiset(t[w := s[v]]) == multiset(t) - multiset{s[w]} + multiset{s[v]};
    }
  }

  /** Replacing item m by the last one and dropping the last removes
      exactly one copy of item m's edge. */
  lemma RemoveAt(s: seq<Edge>, m: int)
    requires 0 <= m < |s|
    ensures multiset(s[m := s[|s| - 1]][..|s| - 1]) + multiset{s[m]} == multiset(s)
  {
    var n := |s| - 1;
    var t := s[m := s[n]][..n];
    if m < n {
      var a, b := s[..m], s[m + 1..n];
      assert s == a + [s[m]] + b + [s[n]];
      assert t == a + [s[n]] + b;
      assert multiset(s) == multiset(a) + multiset{s[m]} + multiset(b) + multiset{s[n]};
      assert multiset(t) == multiset(a) + multiset{s[n]} + multiset(b);
    } else {
      assert s == t + [s[n]];
    }
  }

  class EdgePQ {
    var items: seq<Item>

    /** The zero value: an empty slice. */
    constructor ()
      ensures items == []
    {
      items := [];
    }

    /** The number of items. */
    function Len(): (r: int)
      reads this
      ensures r == |items| && r >= 0
    {
      |items|
    }

    /** Whether item v's edge weighs less than item w's. */
    function Less(v: int, w: int): (r: bool)
      reads this
      requires 0 <= v < |items| && 0 <= w < |items|
      ensures r <==> items[v].edge.Weight() < items[w].edge.Weight()
    {
      items[v].edge.Less(items[w].edge)
    }

    /** Exchanges items v and w and writes their new positions into them;
        the held edges stay the same multiset. */
    method Swap(v: int, w: int)
      requires 0 <= v < |items| && 0 <= w < |items|
      modifies this
      ensures items == old(items)[v := old(items)[w].(index := v)][w := old(items)[v].(index := w)]
      ensures Indexed(old(items)) ==> Indexed(items)
      ensures multiset(EdgesOf(items)) == multiset(EdgesOf(old(items)))
    {
      ghost var s := EdgesOf(items);
      var a, b := items[v], items[w];
      items := items[v := b][w := a];
      items := items[v := items[v].(index := v)];
      items := items[w := items[w].(index := w)];
      assert EdgesOf(items) == s[v := s[w]][w := s[v]];
      SwapKeeps(s, v, w);
    }

    /** Appends x at the end, recording the old length as its position. */
    method Push(x: Edge)
      modifies this
      ensures items == old(items) + [Item(x, |old(items)|)]
      ensures Indexed(old(items)) ==> Indexed(items)
      ensures EdgesOf(items) == EdgesOf(old(items)) + [x]
    {
      var n := Len();
      items := items + [Item(x, n)];
    }

    /** Removes the last item and returns its edge. */
    method Pop() returns (e: Edge)
      requires |items| > 0
      modifies this
      ensures items == old(items)[..|old(items)| - 1] && e == old(items)[|old(items)| - 1].edge
      ensures Indexed(old(items)) ==> Indexed(items)
      ensures EdgesOf(items) + [e] == EdgesOf(old(items))
    {
      var n := |items|;
      var item := items[n - 1];
      items := items[..n - 1];
      e := item.edge;
    }
  }

  /** heap.Push: adds x; the queue holds one more copy of it. */
  method HeapPush(pq: EdgePQ, x: Edge)
    modifies pq
    ensures multiset(EdgesOf(pq.items)) == multiset(EdgesOf(old(pq.items))) + multiset{x}
    ensures Indexed(old(pq.items)) ==> Indexed(pq.items)
  {
    pq.Push(x);
  }

  /** The position of an item of least weight, found with Less. */
  method MinIndex(pq: EdgePQ) returns (m: int)
    requires |pq.items| > 0
    ensures 0 <= m < |pq.items|
    ensures forall k :: 0 <= k < |pq.items| ==> pq.items[m].edge.Weight() <= pq.items[k].edge.Weight()
  {
    m := 0;
    var i := 1;
    while i < pq.Len()
      invariant 0 <= m < |pq.items| && 1 <= i <= |pq.items|
      invariant forall k :: 0 <= k < i ==> pq.items[m].edge.Weight() <= pq.items[k].edge.Weight()
    {
      if pq.Less(i, m) {
        m := i;
      }
      i := i + 1;
    }
  }

  /** heap.Pop: moves an item of least weight to the end with Swap, then
      removes it with Pop and returns its edge. */
  method HeapPop(pq: EdgePQ) returns (e: Edge)
    requires |pq.items| > 0
    modifies pq
    ensures e in multiset(EdgesOf(old(pq.items)))
    ensures forall x :: x in multiset(EdgesOf(old(pq.items))) ==> e.Weight() <= x.Weight()
    ensures multiset(EdgesOf(pq.items)) + multiset{e} == multiset(EdgesOf(old(pq.items)))
    ensures |pq.items| == |old(pq.items)| - 1
    ensures Indexed(old(pq.items)) ==> Indexed(pq.items)
  {
    ghost var s := EdgesOf(pq.items);
    var m := MinIndex(pq);
    var n := pq.Len() - 1;
    pq.Swap(m, n);
    ghost var t := EdgesOf(pq.items);
    assert t == s[m := s[n]][n := s[m]];
    e := pq.Pop();
    assert EdgesOf(pq.items) == t[..n];
    assert t[..n] == s[m := s[n]][..n];
    RemoveAt(s, m);
    forall x | x in multiset(s) ensures e.Weight() <= x.Weight() {
      var k :| 0 <= k < |s| && s[k] == x;
    }
  }
}
