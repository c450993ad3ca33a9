// Single-source path finders over an undirected or directed graph: the
// Tremaux depth-first search and the breadth-first search. Both fill a
// `marked` array (the vertices reached) and an `edgeTo` array (the tree
// edge along which each one was first reached), and both answer PathTo by
// walking that tree back to the source.
module PathFinders {
  import opened Sequences
  import opened Graphs

  /** The search tree both builds leave behind. dist is the depth of each
      marked vertex in the tree; it is not stored by the searches, only
      used to state what they build. */
  ghost predicate Tree(g: Adjacency, from: int, marked: seq<bool>, edgeTo: seq<int>, dist: seq<nat>)
  {
    |marked| == |g| && |edgeTo| == |g| && |dist| == |g| && 0 <= from < |g|
    && dist[from] == 0
    && forall w {:trigger edgeTo[w]} :: 0 <= w < |g| && marked[w] && w != from ==>
         0 <= edgeTo[w] < |g| && marked[edgeTo[w]] && w in g[edgeTo[w]]
         && dist[w] == dist[edgeTo[w]] + 1
  }

  /** The tree path from the source to a marked vertex w: the edgeTo chain
      from w back to the source, read forwards. Vertex k of it lies at
      depth k, so no vertex repeats. */
  ghost function TreePath(g: Adjacency, from: int, marked: seq<bool>, edgeTo: seq<int>, dist: seq<nat>, w: int): (p: seq<int>)
    requires Tree(g, from, marked, edgeTo, dist) && 0 <= w < |g| && marked[w]
    ensures |p| == dist[w] + 1
    ensures PathFromTo(g, p, from, w)
    ensures forall k :: 0 <= k < |p| ==> dist[p[k]] == k
    decreases dist[w]
  {
    if w == from then [from]
    else
      var q := TreePath(g, from, marked, edgeTo, dist, edgeTo[w]);
      assert q[|q| - 1] == edgeTo[w];
      q + [w]
  }

  lemma TreePathDistinct(g: Adjacency, from: int, marked: seq<bool>, edgeTo: seq<int>, dist: seq<nat>, w: int)
    requires Tree(g, from, marked, edgeTo, dist) && 0 <= w < |g| && marked[w]
    ensures Distinct(TreePath(g, from, marked, edgeTo, dist, w))
  {
    var p := TreePath(g, from, marked, edgeTo, dist, w);
    forall i, j | 0 <= i < j < |p| ensures p[i] != p[j] {
      assert dist[p[i]] == i && dist[p[j]] == j;
    }
  }

  /** Every vertex of the tree is reachable from the source. */
  lemma TreeReach(g: Adjacency, from: int, marked: seq<bool>, edgeTo: seq<int>, dist: seq<nat>, w: int)
    requires Tree(g, from, marked, edgeTo, dist) && 0 <= w < |g| && marked[w]
    ensures Reachable(g, from, w)
  {
    var p := TreePath(g, from, marked, edgeTo, dist, w);
    assert PathFromTo(g, p, from, w);
  }

  /** Hanging an unmarked successor w of a tree vertex v under it. */
  lemma TreeHang(g: Adjacency, from: int, marked: seq<bool>, edgeTo: seq<int>, dist: seq<nat>, v: int, w: int, depth: nat)
    requires Tree(g, from, marked, edgeTo, dist) && marked[from]
    requires 0 <= v < |g| && marked[v] && 0 <= w < |g| && !marked[w] && w in g[v] && depth == dist[v] + 1
    ensures Tree(g, from, marked[w := true], edgeTo[w := v], dist[w := depth])
  {
  }

  /** A finished search: marked is exactly what the source reaches. */
  lemma MarkedIffReachable(g: Adjacency, from: int, marked: seq<bool>, edgeTo: seq<int>, dist: seq<nat>, t: int)
    requires Tree(g, from, marked, edgeTo, dist) && marked[from] && Closed(g, marked)
    requires 0 <= t < |g|
    ensures marked[t] <==> Reachable(g, from, t)
  {
    if marked[t] {
      TreeReach(g, from, marked, edgeTo, dist, t);
    } else if Reachable(g, from, t) {
      ClosedReach(g, marked, from, t);
    }
  }

  /** A path finder as the searches leave it: the graph, the source and the
      two arrays. It is a value in the source; nothing changes it once built. */
  class Finder {
    const g: Adjacency
    const from: int
    const marked: array<bool>
    const edgeTo: array<int>
    ghost const dist: seq<nat>

    ghost predicate Valid()
      reads this, marked, edgeTo
    {
      marked.Length == |g| && edgeTo.Length == |g|
      && Tree(g, from, marked[..], edgeTo[..], dist)
      && marked[from] && Closed(g, marked[..])
    }

    /** The tree depth of every vertex is its distance from the source. */
    ghost predicate Shortest()
      reads this, marked, edgeTo
      requires Valid()
    {
      forall t, p :: 0 <= t < |g| && PathFromTo(g, p, from, t) ==> dist[t] + 1 <= |p|
    }

    constructor(g: Adjacency, from: int, marked: array<bool>, edgeTo: array<int>, ghost dist: seq<nat>)
      ensures this.g == g && this.from == from && this.marked == marked && this.edgeTo == edgeTo
      ensures this.dist == dist
    {
      this.g, this.from, this.marked, this.edgeTo := g, from, marked, edgeTo;
      this.dist := dist;
    }

    /** HasPathTo: whether the source reaches to. */
    function HasPathTo(to: int): (r: bool)
      reads this, marked, edgeTo
      requires Valid() && 0 <= to < |g|
      ensures r <==> Reachable(g, from, to)
    {
      MarkedIffReachable(g, from, marked[..], edgeTo[..], dist, to);
      marked[to]
    }

    /** PathTo: the edgeTo chain from to back to the source, collected and
        then reversed in place; empty when to is not reached. */
    method PathTo(to: int) returns (path: seq<int>)
      requires Valid() && 0 <= to < |g|
      ensures !Reachable(g, from, to) ==> path == []
      ensures Reachable(g, from, to) ==>
        PathFromTo(g, path, from, to) && Distinct(path) && |path| == dist[to] + 1
      ensures Reachable(g, from, to) && Shortest() ==>
        forall p :: PathFromTo(g, p, from, to) ==> |path| <= |p|
      ensures to == from ==> path == [from]
    {
      if !HasPathTo(to) {
        return [];
      }
      ghost var m, e := marked[..], edgeTo[..];
      ghost var tree := TreePath(g, from, m, e, dist, to);
      var back := [];
      var next := to;
      while next != from
        invariant 0 <= next < |g| && m[next]
        invariant Reversed(tree) == back + Reversed(TreePath(g, from, m, e, dist, next))
        decreases dist[next]
      {
        var parent := edgeTo[next];
        assert TreePath(g, from, m, e, dist, next) == TreePath(g, from, m, e, dist, parent) + [next];
        ReversedSnoc(TreePath(g, from, m, e, dist, parent), next);
        back := back + [next];
        next := parent;
      }
      assert TreePath(g, from, m, e, dist, from) == [from];
      assert Reversed([from]) == [from];
      back := back + [from];
      assert back == Reversed(tree);
      TreePathDistinct(g, from, m, e, dist, to);
      ReversedTwice(tree);
      path := ReversedPath(back);
      assert path == tree;
    }
  }

  // ---------------------------------------------------------------------
  // Depth-first search

  /** The in-place reversal the path finders share. */
  method ReversedPath(s: seq<int>) returns (r: seq<int>)
    ensures r == Reversed(s)
  {
    var a := ToArray(s);
    a := Reverse(a);
    r := a[..];
  }

  /** The state of the depth-first search: the tree so far; stack, the
      vertices whose visit is under way, is marked; every other marked
      vertex has all its successors marked. */
  ghost predicate SearchInv(g: Adjacency, from: int, marked: seq<bool>, edgeTo: seq<int>, dist: seq<nat>, stack: seq<int>)
  {
    Tree(g, from, marked, edgeTo, dist)
    && (forall k :: 0 <= k < |stack| ==> 0 <= stack[k] < |g| && marked[stack[k]])
    && (forall x, i :: 0 <= x < |g| && marked[x] && x !in stack && 0 <= i < |g[x]| ==>
          0 <= g[x][i] < |g| && marked[g[x][i]])
  }

  /** Marking v, which hangs from its recorded tree parent, pushes it. */
  lemma SearchInvPush(g: Adjacency, from: int, marked: seq<bool>, edgeTo: seq<int>, dist: seq<nat>, stack: seq<int>, v: int)
    requires SearchInv(g, from, marked, edgeTo, dist, stack) && 0 <= v < |g| && !marked[v]
    requires v == from || (0 <= edgeTo[v] < |g| && marked[edgeTo[v]] && v in g[edgeTo[v]] && dist[v] == dist[edgeTo[v]] + 1)
    ensures SearchInv(g, from, marked[v := true], edgeTo, dist, stack + [v])
  {
    var m := marked[v := true];
    forall x, i | 0 <= x < |g| && m[x] && x !in stack + [v] && 0 <= i < |g[x]|
      ensures 0 <= g[x][i] < |g| && m[g[x][i]]
    {
      assert marked[x];
    }
  }

  /** Recording the tree edge to an unmarked vertex keeps the invariant. */
  lemma SearchInvHang(g: Adjacency, from: int, marked: seq<bool>, edgeTo: seq<int>, dist: seq<nat>, stack: seq<int>, v: int, adj: int)
    requires SearchInv(g, from, marked, edgeTo, dist, stack)
    requires 0 <= v < |g| && marked[v] && 0 <= adj < |g| && !marked[adj] && marked[from]
    ensures SearchInv(g, from, marked, edgeTo[adj := v], dist[adj := dist[v] + 1], stack)
  {
  }

  /** Once all successors of v are marked, v leaves the stack. */
  lemma SearchInvPop(g: Adjacency, from: int, marked: seq<bool>, edgeTo: seq<int>, dist: seq<nat>, stack: seq<int>, v: int)
    requires SearchInv(g, from, marked, edgeTo, dist, stack + [v]) && 0 <= v < |g|
    requires Explored(g, v, marked, |g[v]|)
    ensures SearchInv(g, from, marked, edgeTo, dist, stack)
  {
    forall k | 0 <= k < |stack| ensures 0 <= stack[k] < |g| && marked[stack[k]] {
      assert stack[k] == (stack + [v])[k];
    }
  }

  /** The first i successors of v are marked. */
  ghost predicate Explored(g: Adjacency, v: int, marked: seq<bool>, i: int)
    requires 0 <= v < |g|
  {
    forall j :: 0 <= j < i && j < |g[v]| ==> 0 <= g[v][j] < |marked| && marked[g[v][j]]
  }

  lemma ExploredGrows(g: Adjacency, v: int, a: seq<bool>, b: seq<bool>, i: int)
    requires 0 <= v < |g| && Explored(g, v, a, i) && Grows(a, b)
    requires 0 <= i < |g[v]| && 0 <= g[v][i] < |b| && b[g[v][i]]
    ensures Explored(g, v, b, i + 1)
  {
  }

  /** The recursive visit: marks v and everything unmarked it reaches,
      recording for each the vertex it was reached from. */
  method SearchVisit(g: Adjacency, from: int, v: int, marked: array<bool>, edgeTo: array<int>, ghost dist0: seq<nat>, ghost stack: seq<int>)
      returns (ghost dist: seq<nat>)
    requires WellFormed(g) && marked.Length == |g| && edgeTo.Length == |g|
    requires 0 <= v < |g| && !marked[v]
    requires SearchInv(g, from, marked[..], edgeTo[..], dist0, stack) && (v == from || marked[from])
    requires v == from || (0 <= edgeTo[v] < |g| && marked[edgeTo[v]] && v in g[edgeTo[v]] && dist0[v] == dist0[edgeTo[v]] + 1)
    modifies marked, edgeTo
    decreases Unvisited(marked[..]), 0
    ensures SearchInv(g, from, marked[..], edgeTo[..], dist, stack)
    ensures marked[v] && Grows(old(marked[..]), marked[..])
  {
    SearchInvPush(g, from, marked[..], edgeTo[..], dist0, stack, v);
    UnvisitedMark(marked[..], v);
    marked[v] := true;
    dist := dist0;
    ghost var path := stack + [v];
    ghost var entry := marked[..];
    dist := SearchSuccessors(g, from, v, marked, edgeTo, dist, path);
    GrowsTrans(old(marked[..]), entry, marked[..]);
    SearchInvPop(g, from, marked[..], edgeTo[..], dist, stack, v);
  }

  /** The loop of the visit of v: each unmarked successor is reached from v
      and visited. */
  method SearchSuccessors(g: Adjacency, from: int, v: int, marked: array<bool>, edgeTo: array<int>,
                          ghost dist0: seq<nat>, ghost path: seq<int>)
      returns (ghost dist: seq<nat>)
    requires WellFormed(g) && marked.Length == |g| && edgeTo.Length == |g| && 0 <= v < |g|
    requires SearchInv(g, from, marked[..], edgeTo[..], dist0, path) && marked[from]
    requires path != [] && path[|path| - 1] == v
    modifies marked, edgeTo
    decreases Unvisited(marked[..]), 1
    ensures Grows(old(marked[..]), marked[..])
    ensures SearchInv(g, from, marked[..], edgeTo[..], dist, path) && marked[from]
    ensures Explored(g, v, marked[..], |g[v]|)
  {
    dist := dist0;
    ghost var entry := marked[..];
    var i := 0;
    while i < |g[v]|
      invariant 0 <= i <= |g[v]|
      invariant Grows(entry, marked[..])
      invariant SearchInv(g, from, marked[..], edgeTo[..], dist, path) && marked[from]
      invariant Explored(g, v, marked[..], i)
    {
      var adj := g[v][i];
      if !marked[adj] {
        UnvisitedMonotone(entry, marked[..]);
        SearchInvHang(g, from, marked[..], edgeTo[..], dist, path, v, adj);
        edgeTo[adj] := v;
        dist := dist[adj := dist[v] + 1];
        ghost var before := marked[..];
        dist := SearchVisit(g, from, adj, marked, edgeTo, dist, path);
        GrowsTrans(entry, before, marked[..]);
        ExploredGrows(g, v, before, marked[..], i);
      }
      i := i + 1;
    }
  }

  /** BuildDFS: an error for a source outside the graph, otherwise the
      finished depth-first search from it. */
  method BuildDFS(g: Adjacency, from: int) returns (r: Result<Finder>)
    requires WellFormed(g)
    ensures from < 0 ==> r == Err("Can't start DFS from negative source")
    ensures 0 <= from && |g| <= from ==> r == Err("Can't start DFS from vertex v >= total vertex count")
    ensures 0 <= from < |g| ==> r.Ok? && r.value.Valid() && r.value.g == g && r.value.from == from
  {
    if from < 0 {
      return Err("Can't start DFS from negative source");
    }
    if from >= |g| {
      return Err("Can't start DFS from vertex v >= total vertex count");
    }
    var marked := new bool[|g|](_ => false);
    var edgeTo := new int[|g|](_ => 0);
    ghost var dist: seq<nat> := seq(|g|, _ => 0);
    dist := SearchVisit(g, from, from, marked, edgeTo, dist, []);
    var f := new Finder(g, from, marked, edgeTo, dist);
    return Ok(f);
  }

  // ---------------------------------------------------------------------
  // Breadth-first search

  /** The log of every vertex ever enqueued, the source first: its
      vertices are exactly the marked ones, none twice, in nondecreasing
      depth. The queue is the log without the vertices already dequeued. */
  ghost predicate Queued(g: Adjacency, from: int, marked: seq<bool>, dist: seq<nat>, enqueued: seq<int>)
  {
    |marked| == |g| && |dist| == |g| && |enqueued| > 0 && enqueued[0] == from
    && (forall k :: 0 <= k < |enqueued| ==> 0 <= enqueued[k] < |g| && marked[enqueued[k]])
    && (forall x :: 0 <= x < |g| && marked[x] ==> x in enqueued)
    && Distinct(enqueued)
    && (forall k, l :: 0 <= k < l < |enqueued| ==> dist[enqueued[k]] <= dist[enqueued[l]])
  }

  /** The first n logged vertices are expanded: every successor is marked
      and at most one deeper. */
  ghost predicate Relaxed(g: Adjacency, marked: seq<bool>, dist: seq<nat>, enqueued: seq<int>, n: int)
  {
    |marked| == |g| && |dist| == |g| && 0 <= n <= |enqueued|
    && forall k, i :: 0 <= k < n && 0 <= enqueued[k] < |g| && 0 <= i < |g[enqueued[k]]| ==>
         0 <= g[enqueued[k]][i] < |g| && marked[g[enqueued[k]][i]] && dist[g[enqueued[k]][i]] <= dist[enqueued[k]] + 1
  }

  /** Enqueueing an unmarked vertex no shallower than the log's last. */
  lemma QueuedPush(g: Adjacency, from: int, marked: seq<bool>, dist: seq<nat>, enqueued: seq<int>, w: int, d: nat)
    requires Queued(g, from, marked, dist, enqueued) && 0 <= w < |g| && !marked[w]
    requires dist[enqueued[|enqueued| - 1]] <= d
    ensures Queued(g, from, marked[w := true], dist[w := d], enqueued + [w])
  {
    var l := enqueued + [w];
    assert forall k :: 0 <= k < |enqueued| ==> l[k] == enqueued[k] && enqueued[k] != w;
  }

  lemma RelaxedPush(g: Adjacency, marked: seq<bool>, dist: seq<nat>, enqueued: seq<int>, n: int, w: int, d: nat)
    requires Relaxed(g, marked, dist, enqueued, n) && 0 <= w < |g| && !marked[w]
    requires forall k :: 0 <= k < n ==> enqueued[k] != w
    ensures Relaxed(g, marked[w := true], dist[w := d], enqueued + [w], n)
  {
    var l := enqueued + [w];
    assert forall k :: 0 <= k < n ==> l[k] == enqueued[k];
  }

  /** A marked vertex is logged, so it is at most as deep as the log's last. */
  lemma QueuedBound(g: Adjacency, from: int, marked: seq<bool>, dist: seq<nat>, enqueued: seq<int>, w: int)
    requires Queued(g, from, marked, dist, enqueued) && 0 <= w < |g| && marked[w]
    ensures dist[w] <= dist[enqueued[|enqueued| - 1]]
  {
    var k :| 0 <= k < |enqueued| && enqueued[k] == w;
  }

  /** The first i successors of v, at depth level, are marked and at most
      one deeper. */
  ghost predicate Frontier(g: Adjacency, v: int, marked: seq<bool>, dist: seq<nat>, i: int, level: nat)
    requires 0 <= v < |g|
  {
    forall j :: 0 <= j < i && j < |g[v]| ==>
      0 <= g[v][j] < |marked| && g[v][j] < |dist| && marked[g[v][j]] && dist[g[v][j]] <= level + 1
  }

  lemma FrontierPush(g: Adjacency, v: int, marked: seq<bool>, dist: seq<nat>, i: int, level: nat)
    requires 0 <= v < |g| && |marked| == |g| && |dist| == |g| && Frontier(g, v, marked, dist, i, level)
    requires 0 <= i < |g[v]| && 0 <= g[v][i] < |g| && !marked[g[v][i]]
    ensures Frontier(g, v, marked[g[v][i] := true], dist[g[v][i] := level + 1], i + 1, level)
  {
  }

  lemma FrontierSeen(g: Adjacency, v: int, marked: seq<bool>, dist: seq<nat>, i: int, level: nat)
    requires 0 <= v < |g| && |marked| == |g| && |dist| == |g| && Frontier(g, v, marked, dist, i, level)
    requires 0 <= i < |g[v]| && 0 <= g[v][i] < |g| && marked[g[v][i]] && dist[g[v][i]] <= level + 1
    ensures Frontier(g, v, marked, dist, i + 1, level)
  {
  }

  /** Once all successors of the n-th logged vertex are relaxed, it is too. */
  lemma RelaxedNext(g: Adjacency, marked: seq<bool>, dist: seq<nat>, enqueued: seq<int>, n: int)
    requires Relaxed(g, marked, dist, enqueued, n) && n < |enqueued| && 0 <= enqueued[n] < |g|
    requires Frontier(g, enqueued[n], marked, dist, |g[enqueued[n]]|, dist[enqueued[n]])
    ensures Relaxed(g, marked, dist, enqueued, n + 1)
  {
  }

  /** With every successor marked at most one deeper, no path is shorter
      than the depth of its end. */
  lemma RelaxedShortest(g: Adjacency, from: int, marked: seq<bool>, dist: seq<nat>, t: int, p: seq<int>)
    requires |marked| == |g| && |dist| == |g| && 0 <= from < |g| && marked[from] && dist[from] == 0
    requires forall x, i :: 0 <= x < |g| && marked[x] && 0 <= i < |g[x]| ==>
               0 <= g[x][i] < |g| && marked[g[x][i]] && dist[g[x][i]] <= dist[x] + 1
    requires PathFromTo(g, p, from, t)
    ensures dist[t] + 1 <= |p|
  {
    var k := 0;
    while k < |p| - 1
      invariant 0 <= k < |p| && marked[p[k]] && dist[p[k]] <= k
    {
      assert p[k + 1] in g[p[k]];
      var i :| 0 <= i < |g[p[k]]| && g[p[k]][i] == p[k + 1];
      k := k + 1;
    }
  }

  /** The state of the breadth-first search when the vertex at position
      head of the log is next to expand: the tree, the log, the queue's
      depths within one of that vertex's, and everything before it expanded. */
  ghost predicate Searching(g: Adjacency, from: int, marked: seq<bool>, edgeTo: seq<int>, dist: seq<nat>, enqueued: seq<int>, head: int)
  {
    Tree(g, from, marked, edgeTo, dist) && marked[from]
    && Queued(g, from, marked, dist, enqueued)
    && 0 <= head <= |enqueued|
    && (head < |enqueued| ==> dist[enqueued[|enqueued| - 1]] <= dist[enqueued[head]] + 1)
    && Relaxed(g, marked, dist, enqueued, head)
  }

  lemma SearchingNext(g: Adjacency, from: int, marked: seq<bool>, edgeTo: seq<int>, dist: seq<nat>, enqueued: seq<int>, head: int)
    requires Searching(g, from, marked, edgeTo, dist, enqueued, head) && head < |enqueued|
    requires Frontier(g, enqueued[head], marked, dist, |g[enqueued[head]]|, dist[enqueued[head]])
    ensures Searching(g, from, marked, edgeTo, dist, enqueued, head + 1)
  {
    RelaxedNext(g, marked, dist, enqueued, head);
  }

  /** The queue loop, returning the log of every vertex ever enqueued. */
  method SearchQueue(g: Adjacency, from: int, marked: array<bool>, edgeTo: array<int>, ghost dist0: seq<nat>)
      returns (ghost dist: seq<nat>, ghost enqueued: seq<int>)
    requires WellFormed(g) && marked.Length == |g| && edgeTo.Length == |g|
    requires 0 <= from < |g| && forall x :: 0 <= x < |g| ==> !marked[x]
    requires |dist0| == |g| && dist0[from] == 0
    modifies marked, edgeTo
    ensures Tree(g, from, marked[..], edgeTo[..], dist) && marked[from] && Closed(g, marked[..])
    ensures forall x, i :: 0 <= x < |g| && marked[x] && 0 <= i < |g[x]| ==> dist[g[x][i]] <= dist[x] + 1
    ensures Queued(g, from, marked[..], dist, enqueued)
  {
    dist := dist0;
    var queue := [from];
    marked[from] := true;
    enqueued := [from];
    ghost var head := 0;
    while |queue| != 0
      invariant Searching(g, from, marked[..], edgeTo[..], dist, enqueued, head)
      invariant queue == enqueued[head..]
      decreases Unvisited(marked[..]) + |queue|
    {
      var v := queue[0];
      queue := queue[1..];
      queue, dist, enqueued := Expand(g, from, v, marked, edgeTo, queue, dist, enqueued, head);
      SearchingNext(g, from, marked[..], edgeTo[..], dist, enqueued, head);
      head := head + 1;
    }
    SearchedAll(g, from, marked[..], edgeTo[..], dist, enqueued);
  }

  /** An empty queue: every marked vertex is expanded. */
  lemma SearchedAll(g: Adjacency, from: int, marked: seq<bool>, edgeTo: seq<int>, dist: seq<nat>, enqueued: seq<int>)
    requires Searching(g, from, marked, edgeTo, dist, enqueued, |enqueued|)
    ensures Closed(g, marked)
    ensures forall x, i :: 0 <= x < |g| && marked[x] && 0 <= i < |g[x]| ==> dist[g[x][i]] <= dist[x] + 1
  {
    forall x, i | 0 <= x < |g| && marked[x] && 0 <= i < |g[x]|
      ensures 0 <= g[x][i] < |g| && marked[g[x][i]] && dist[g[x][i]] <= dist[x] + 1
    {
      var k :| 0 <= k < |enqueued| && enqueued[k] == x;
    }
  }

  /** Expanding the vertex v at position head of the log, after its first i
      successors; u counts the unmarked vertices plus the queue's length. */
  ghost predicate Expanding(g: Adjacency, from: int, marked: seq<bool>, edgeTo: seq<int>, dist: seq<nat>, enqueued: seq<int>,
                            head: int, queue: seq<int>, v: int, i: int, u: int)
  {
    Searching(g, from, marked, edgeTo, dist, enqueued, head)
    && head < |enqueued| && v == enqueued[head] && queue == enqueued[head + 1..]
    && 0 <= i <= |g[v]| && Frontier(g, v, marked, dist, i, dist[v])
    && Unvisited(marked) + |queue| == u
  }

  /** The successor i of v is unmarked: mark it, hang it under v, enqueue it. */
  lemma ExpandNew(g: Adjacency, from: int, marked: seq<bool>, edgeTo: seq<int>, dist: seq<nat>, enqueued: seq<int>,
                  head: int, queue: seq<int>, v: int, i: int, u: int)
    requires WellFormed(g) && Expanding(g, from, marked, edgeTo, dist, enqueued, head, queue, v, i, u) && i < |g[v]|
    requires !marked[g[v][i]]
    ensures var w := g[v][i];
      Expanding(g, from, marked[w := true], edgeTo[w := v], dist[w := dist[v] + 1], enqueued + [w], head, queue + [w], v, i + 1, u)
  {
    var w := g[v][i];
    SearchingPush(g, from, marked, edgeTo, dist, enqueued, head, w);
    FrontierPush(g, v, marked, dist, i, dist[v]);
    UnvisitedMark(marked, w);
    assert (enqueued + [w])[head + 1..] == queue + [w];
  }

  /** The successor i of v is already marked: nothing changes. */
  lemma ExpandSeen(g: Adjacency, from: int, marked: seq<bool>, edgeTo: seq<int>, dist: seq<nat>, enqueued: seq<int>,
                   head: int, queue: seq<int>, v: int, i: int, u: int)
    requires WellFormed(g) && Expanding(g, from, marked, edgeTo, dist, enqueued, head, queue, v, i, u) && i < |g[v]|
    requires marked[g[v][i]]
    ensures Expanding(g, from, marked, edgeTo, dist, enqueued, head, queue, v, i + 1, u)
  {
    QueuedBound(g, from, marked, dist, enqueued, g[v][i]);
    FrontierSeen(g, v, marked, dist, i, dist[v]);
  }

  /** One turn of the queue loop: the successors of v, just dequeued from
      position head of the log, that are not yet marked are marked, hung
      under v and enqueued in adjacency order. */
  method Expand(g: Adjacency, from: int, v: int, marked: array<bool>, edgeTo: array<int>, queue0: seq<int>,
                ghost dist0: seq<nat>, ghost enqueued0: seq<int>, ghost head: int)
      returns (queue: seq<int>, ghost dist: seq<nat>, ghost enqueued: seq<int>)
    requires WellFormed(g) && marked.Length == |g| && edgeTo.Length == |g|
    requires Expanding(g, from, marked[..], edgeTo[..], dist0, enqueued0, head, queue0, v, 0, Unvisited(marked[..]) + |queue0|)
    modifies marked, edgeTo
    ensures Expanding(g, from, marked[..], edgeTo[..], dist, enqueued, head, queue, v, |g[v]|, old(Unvisited(marked[..])) + |queue0|)
  {
    queue, dist, enqueued := queue0, dist0, enqueued0;
    ghost var u := Unvisited(marked[..]) + |queue0|;
    var i := 0;
    while i < |g[v]|
      invariant Expanding(g, from, marked[..], edgeTo[..], dist, enqueued, head, queue, v, i, u)
    {
      var adj := g[v][i];
      ghost var m, e := marked[..], edgeTo[..];
      if !marked[adj] {
        ExpandNew(g, from, m, e, dist, enqueued, head, queue, v, i, u);
        queue := queue + [adj];
        enqueued := enqueued + [adj];
        edgeTo[adj] := v;
        marked[adj] := true;
        dist := dist[adj := dist[v] + 1];
        assert marked[..] == m[adj := true];
        assert edgeTo[..] == e[adj := v];
      } else {
        ExpandSeen(g, from, m, e, dist, enqueued, head, queue, v, i, u);
      }
      i := i + 1;
    }
  }

  /** Enqueueing an unmarked successor of the vertex being expanded. */
  lemma SearchingPush(g: Adjacency, from: int, marked: seq<bool>, edgeTo: seq<int>, dist: seq<nat>, enqueued: seq<int>, head: int, w: int)
    requires WellFormed(g) && Searching(g, from, marked, edgeTo, dist, enqueued, head) && head < |enqueued|
    requires 0 <= w < |g| && !marked[w] && w in g[enqueued[head]]
    ensures var v := enqueued[head];
      Searching(g, from, marked[w := true], edgeTo[w := v], dist[w := dist[v] + 1], enqueued + [w], head)
  {
    var v := enqueued[head];
    TreeHang(g, from, marked, edgeTo, dist, v, w, dist[v] + 1);
    QueuedPush(g, from, marked, dist, enqueued, w, dist[v] + 1);
    RelaxedPush(g, marked, dist, enqueued, head, w, dist[v] + 1);
    assert (enqueued + [w])[head] == v;
  }

  /** BuildBFS: an error for a source outside the graph, otherwise the
      finished breadth-first search from it, whose tree depths are
      distances. */
  method BuildBFS(g: Adjacency, from: int) returns (r: Result<Finder>)
    requires WellFormed(g)
    ensures from < 0 ==> r == Err("Can't start BFS from negative source")
    ensures 0 <= from && |g| <= from ==> r == Err("Can't start BFS from vertex v >= total vertex count")
    ensures 0 <= from < |g| ==> r.Ok? && r.value.Valid() && r.value.Shortest()
    ensures 0 <= from < |g| ==> r.value.g == g && r.value.from == from
  {
    if from < 0 {
      return Err("Can't start BFS from negative source");
    }
    if from >= |g| {
      return Err("Can't start BFS from vertex v >= total vertex count");
    }
    var marked := new bool[|g|](_ => false);
    var edgeTo := new int[|g|](_ => 0);
    ghost var dist: seq<nat> := seq(|g|, _ => 0);
    ghost var enqueued;
    dist, enqueued := SearchQueue(g, from, marked, edgeTo, dist);
    var f := new Finder(g, from, marked, edgeTo, dist);
    forall t, p | 0 <= t < |g| && PathFromTo(g, p, from, t) ensures dist[t] + 1 <= |p| {
      RelaxedShortest(g, from, marked[..], dist, t, p);
    }
    return Ok(f);
  }
}
