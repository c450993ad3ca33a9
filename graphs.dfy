// The vocabulary every algorithm shares. The algorithms read a graph only
// through V() and Adj(v); here a graph is that adjacency snapshot: g[v] is
// Adj(v) and |g| is V().
module Graphs {
  import Sequences

  type Adjacency = seq<seq<int>>

  /** A value or the error a Go function returns beside it. */
  datatype Result<T> = Ok(value: T) | Err(message: string)

  /** How a Go call can end without returning: a run-time panic or the
      goroutine's stack running out under unbounded recursion. */
  datatype Failure = IndexOutOfRange | NilDereference | StackOverflow

  /** What a call that may crash produces. */
  datatype Outcome<T> = Returned(value: T) | Crashed(failure: Failure)

  /** Every adjacency entry names a vertex of the graph. */
  predicate WellFormed(g: Adjacency)
  {
    forall v, i :: 0 <= v < |g| && 0 <= i < |g[v]| ==> 0 <= g[v][i] < |g|
  }

  /** Appending a vertex to one list keeps the graph well formed. */
  lemma WellFormedAppend(g: Adjacency, w: int, a: int)
    requires WellFormed(g) && 0 <= w < |g| && 0 <= a < |g|
    ensures WellFormed(g[w := g[w] + [a]])
  {
    var h := g[w := g[w] + [a]];
    forall x, i | 0 <= x < |h| && 0 <= i < |h[x]| ensures 0 <= h[x][i] < |h| {
      if x == w && i == |g[w]| {
      } else {
        assert h[x][i] == g[x][i];
      }
    }
  }

  /** Every edge v-w is also listed as w-v (an undirected store). */
  ghost predicate Symmetric(g: Adjacency)
  {
    forall v, i :: 0 <= v < |g| && 0 <= i < |g[v]| && 0 <= g[v][i] < |g| ==> v in g[g[v][i]]
  }

  /** p walks along edges of g; a single vertex is a path of length zero. */
  ghost predicate IsPath(g: Adjacency, p: seq<int>)
  {
    |p| > 0
    && (forall i :: 0 <= i < |p| ==> 0 <= p[i] < |g|)
    && (forall i :: 0 <= i < |p| - 1 ==> p[i + 1] in g[p[i]])
  }

  ghost predicate PathFromTo(g: Adjacency, p: seq<int>, s: int, t: int)
  {
    IsPath(g, p) && p[0] == s && p[|p| - 1] == t
  }

  ghost predicate Reachable(g: Adjacency, s: int, t: int)
  {
    exists p :: PathFromTo(g, p, s, t)
  }

  /** A closed walk with at least one edge. */
  ghost predicate IsCycle(g: Adjacency, c: seq<int>)
  {
    IsPath(g, c) && |c| >= 2 && c[0] == c[|c| - 1]
  }

  ghost predicate Acyclic(g: Adjacency)
  {
    forall c :: !IsCycle(g, c)
  }

  /** The marked vertices are closed under the edges of g. */
  ghost predicate Closed(g: Adjacency, m: seq<bool>)
  {
    |m| == |g|
    && forall v, i :: 0 <= v < |g| && m[v] && 0 <= i < |g[v]| ==> 0 <= g[v][i] < |g| && m[g[v][i]]
  }

  /** The number of unmarked vertices: what a depth-first search still has to visit. */
  function Unvisited(m: seq<bool>): nat
  {
    if m == [] then 0 else (if m[0] then 0 else 1) + Unvisited(m[1..])
  }

  /** Marks only ever get set. */
  ghost predicate Grows(a: seq<bool>, b: seq<bool>)
  {
    |a| == |b| && forall x :: 0 <= x < |a| && a[x] ==> b[x]
  }

  lemma GrowsTrans(a: seq<bool>, b: seq<bool>, c: seq<bool>)
    requires Grows(a, b) && Grows(b, c)
    ensures Grows(a, c)
  {
  }

  lemma {:induction false} UnvisitedMark(m: seq<bool>, i: int)
    requires 0 <= i < |m| && !m[i]
    ensures Unvisited(m[i := true]) == Unvisited(m) - 1
  {
    if i > 0 {
      UnvisitedMark(m[1..], i - 1);
      assert m[i := true][1..] == m[1..][i - 1 := true];
    } else {
      assert m[i := true][1..] == m[1..];
    }
  }

  lemma {:induction false} UnvisitedMonotone(a: seq<bool>, b: seq<bool>)
    requires |a| == |b|
    requires forall i :: 0 <= i < |a| && a[i] ==> b[i]
    ensures Unvisited(b) <= Unvisited(a)
  {
    if a != [] {
      UnvisitedMonotone(a[1..], b[1..]);
    }
  }

  lemma {:induction false} UnvisitedAtMost(m: seq<bool>)
    ensures Unvisited(m) <= |m|
  {
    if m != [] {
      UnvisitedAtMost(m[1..]);
    }
  }

  /** Once a vertex is marked, fewer than all are unvisited. */
  lemma {:induction false} UnvisitedBelow(m: seq<bool>, i: int)
    requires 0 <= i < |m| && m[i]
    ensures Unvisited(m) < |m|
  {
    if i == 0 {
      UnvisitedAtMost(m[1..]);
    } else {
      UnvisitedBelow(m[1..], i - 1);
    }
  }

  lemma UnvisitedNone(m: seq<bool>)
    requires forall i :: 0 <= i < |m| ==> m[i]
    ensures Unvisited(m) == 0
  {
    if m != [] {
      UnvisitedNone(m[1..]);
    }
  }

  lemma UnvisitedAllFalse(m: seq<bool>)
    requires forall i :: 0 <= i < |m| ==> !m[i]
    ensures Unvisited(m) == |m|
  {
    if m != [] {
      UnvisitedAllFalse(m[1..]);
    }
  }

  /** A path followed by one more edge. */
  lemma ReachStep(g: Adjacency, s: int, x: int, y: int)
    requires WellFormed(g)
    requires Reachable(g, s, x) && 0 <= x < |g| && y in g[x]
    ensures Reachable(g, s, y)
  {
    var p :| PathFromTo(g, p, s, x);
    var q := p + [y];
    assert PathFromTo(g, q, s, y);
  }

  lemma ReachSelf(g: Adjacency, s: int)
    requires 0 <= s < |g|
    ensures Reachable(g, s, s)
  {
    assert PathFromTo(g, [s], s, s);
  }

  lemma ReachEdge(g: Adjacency, x: int, y: int)
    requires WellFormed(g)
    requires 0 <= x < |g| && y in g[x]
    ensures Reachable(g, x, y)
  {
    assert PathFromTo(g, [x, y], x, y);
  }

  lemma ReachTrans(g: Adjacency, a: int, b: int, c: int)
    requires Reachable(g, a, b) && Reachable(g, b, c)
    ensures Reachable(g, a, c)
  {
    var p :| PathFromTo(g, p, a, b);
    var q :| PathFromTo(g, q, b, c);
    var r := p + q[1..];
    forall i | 0 <= i < |r| - 1 ensures r[i + 1] in g[r[i]] {
      if i < |p| - 1 {
      } else {
        assert r[i] == q[i - |p| + 1];
      }
    }
    assert PathFromTo(g, r, a, c);
  }

  /** In a symmetric graph reachability goes both ways. */
  lemma ReachSymmetric(g: Adjacency, s: int, t: int)
    requires WellFormed(g) && Symmetric(g)
    requires Reachable(g, s, t)
    ensures Reachable(g, t, s)
  {
    var p :| PathFromTo(g, p, s, t);
    var n := |p|;
    var r := Sequences.Reversed(p);
    forall i | 0 <= i < n - 1 ensures r[i + 1] in g[r[i]] {
      var j := n - 2 - i;
      assert p[j + 1] in g[p[j]];
      var k :| 0 <= k < |g[p[j]]| && g[p[j]][k] == p[j + 1];
    }
    assert PathFromTo(g, r, t, s);
  }

  /** Nothing leaves a closed set of vertices. */
  lemma ClosedReach(g: Adjacency, m: seq<bool>, s: int, t: int)
    requires Closed(g, m) && 0 <= s < |g| && m[s]
    requires Reachable(g, s, t)
    ensures 0 <= t < |g| && m[t]
  {
    var p :| PathFromTo(g, p, s, t);
    var k := 0;
    while k < |p| - 1
      invariant 0 <= k < |p|
      invariant m[p[k]]
    {
      assert p[k + 1] in g[p[k]];
      var i :| 0 <= i < |g[p[k]]| && g[p[k]][i] == p[k + 1];
      k := k + 1;
    }
  }

  /** A ranking that drops along every edge rules out cycles. */
  lemma RankedAcyclic(g: Adjacency, rank: seq<int>)
    requires |rank| == |g|
    requires forall v, i :: 0 <= v < |g| && 0 <= i < |g[v]| && 0 <= g[v][i] < |g| ==> rank[g[v][i]] < rank[v]
    ensures Acyclic(g)
  {
    forall c | IsCycle(g, c) ensures false {
      var k := 1;
      while k < |c|
        invariant 1 <= k <= |c|
        invariant k > 1 ==> rank[c[k - 1]] < rank[c[0]]
      {
        assert c[k] in g[c[k - 1]];
        var i :| 0 <= i < |g[c[k - 1]]| && g[c[k - 1]][i] == c[k];
        k := k + 1;
      }
    }
  }
}
