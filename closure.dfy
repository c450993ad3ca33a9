// All-pairs reachability in a digraph: one depth-first path finder per
// source vertex.
module Closure {
  import opened Graphs
  import opened PathFinders

  class TransitiveClosure {
    ghost const g: Adjacency
    const paths: array<Finder?>
    ghost const Repr: set<object>

    /** paths[v] is a finished depth-first search of g from v. */
    ghost predicate Valid()
      reads this, paths, Repr
    {
      WellFormed(g) && paths.Length == |g|
      && forall v :: 0 <= v < paths.Length ==>
           paths[v] != null && paths[v] in Repr && paths[v].marked in Repr && paths[v].edgeTo in Repr
           && paths[v].g == g && paths[v].from == v && paths[v].Valid()
    }

    constructor (g: Adjacency, paths: array<Finder?>, ghost Repr: set<object>)
      ensures this.g == g && this.paths == paths && this.Repr == Repr
    {
      this.g, this.paths, this.Repr := g, paths, Repr;
    }

    /** Reachable(v, w): whether there is a directed path from v to w. */
    function Reachable(v: int, w: int): (r: bool)
      requires Valid() && 0 <= v < |g| && 0 <= w < |g|
      reads this, paths, Repr
      ensures r <==> Graphs.Reachable(g, v, w)
    {
      paths[v].HasPathTo(w)
    }
  }

  /** BuildTransitiveClosure: a depth-first search from every vertex, stored
      at that vertex's slot. Every source is in range, so no search fails. */
  method BuildTransitiveClosure(g: Adjacency) returns (tc: TransitiveClosure)
    requires WellFormed(g)
    ensures tc.Valid() && tc.g == g
  {
    var paths := new Finder?[|g|](_ => null);
    ghost var repr: set<object> := {};
    var v := 0;
    while v < |g|
      invariant 0 <= v <= |g|
      invariant forall u :: 0 <= u < v ==>
                  paths[u] != null && paths[u] in repr && paths[u].marked in repr && paths[u].edgeTo in repr
                  && paths[u].g == g && paths[u].from == u && paths[u].Valid()
    {
      var r := BuildDFS(g, v);
      paths[v] := r.value;
      repr := repr + {r.value, r.value.marked, r.value.edgeTo};
      v := v + 1;
    }
    tc := new TransitiveClosure(g, paths, repr);
  }

  /** Every vertex reaches itself: the search from v marks v. */
  lemma ClosureReflexive(tc: TransitiveClosure, v: int)
    requires tc.Valid() && 0 <= v < |tc.g|
    ensures tc.Reachable(v, v)
  {
    ReachSelf(tc.g, v);
  }

  /** Every edge v -> w is a reachable pair. */
  lemma ClosureEdge(tc: TransitiveClosure, v: int, w: int)
    requires tc.Valid() && 0 <= v < |tc.g| && w in tc.g[v]
    ensures 0 <= w < |tc.g| && tc.Reachable(v, w)
  {
    ReachEdge(tc.g, v, w);
  }

  /** Reachable pairs compose. */
  lemma ClosureTransitive(tc: TransitiveClosure, u: int, v: int, w: int)
    requires tc.Valid() && 0 <= u < |tc.g| && 0 <= v < |tc.g| && 0 <= w < |tc.g|
    requires tc.Reachable(u, v) && tc.Reachable(v, w)
    ensures tc.Reachable(u, w)
  {
    ReachTrans(tc.g, u, v, w);
  }
}
