// The directed store, its reverse, directed-cycle detection, and the DAG
// wrapper with its topological sort.
module Digraphs {
  import opened Sequences
  import opened Graphs

  /** Directed adjacency-list store. Copies of the Go value share the lists
      and the edge counter, so one object stands for all of them. */
  class Digraph {
    const v: int
    var adj: seq<seq<int>>
    var e: int

    ghost predicate Valid()
      reads this
    {
      |adj| == v && e == SumLengths(adj)
    }

    /** NewDigraph: n vertices, all disconnected. */
    constructor (n: int)
      requires n >= 0
      ensures Valid() && v == n && e == 0
      ensures forall x :: 0 <= x < n ==> adj[x] == []
    {
      v := n;
      adj := seq(n, _ => []);
      e := 0;
      new;
      SumLengthsZero(adj);
    }

    /** Appends b to a's list only and counts one more edge. The head b is
        not checked against the vertex range. */
    method AddEdge(a: int, b: int)
      requires Valid() && 0 <= a < v
      modifies this
      ensures Valid()
      ensures adj == old(adj)[a := old(adj)[a] + [b]]
      ensures e == old(e) + 1
    {
      SumLengthsUpdate(adj, a, adj[a] + [b]);
      adj := adj[a := adj[a] + [b]];
      e := e + 1;
    }

    /** The heads of the edges leaving x; there are at most E() of them. */
    function Adj(x: int): (r: seq<int>)
      reads this
      requires Valid() && 0 <= x < v
      ensures |r| <= e
    {
      SumLengthsBound(adj, x);
      adj[x]
    }

    /** The number of vertices: one list per vertex. */
    function V(): (r: int)
      reads this
      requires Valid()
      ensures r == |adj|
    {
      v
    }

    /** The edge counter, which is the total length of the lists. */
    function E(): (r: int)
      reads this
      requires Valid()
      ensures r == SumLengths(adj)
    {
      e
    }

    /** A new digraph with every edge turned around: the same vertices and
        edge count, and each edge x->y of this graph, with its multiplicity,
        as y->x. This graph is left unchanged. */
    method Reverse() returns (rev: Digraph)
      requires Valid() && WellFormed(adj)
      ensures fresh(rev) && rev.Valid() && WellFormed(rev.adj)
      ensures rev.v == v && rev.e == e
      ensures forall x, y :: 0 <= x < v && 0 <= y < v ==> multiset(rev.adj[y])[x] == multiset(adj[x])[y]
    {
      rev := new Digraph(v);
      var x := 0;
      while x < v
        invariant 0 <= x <= v
        invariant fresh(rev) && rev.Valid() && rev.v == v && WellFormed(rev.adj)
        invariant rev.e == SumLengths(adj[..x])
        invariant ReversedUpTo(rev.adj, adj, x)
      {
        ghost var before := rev.adj;
        AddReversed(rev, x);
        ReversedStep(before, rev.adj, adj, x);
        SumLengthsPrefix(adj, x);
        x := x + 1;
      }
      assert adj[..x] == adj;
    }

    /** The inner loop of Reverse: rev.AddEdge(w, x) for every w in Adj(x), in order. */
    method AddReversed(rev: Digraph, x: int)
      requires Valid() && WellFormed(adj) && 0 <= x < v
      requires rev != this && rev.Valid() && rev.v == v && WellFormed(rev.adj)
      modifies rev
      ensures rev.Valid() && WellFormed(rev.adj)
      ensures rev.e == old(rev.e) + |adj[x]|
      ensures forall y, z :: 0 <= y < v && 0 <= z < v ==>
                multiset(rev.adj[y])[z] == old(multiset(rev.adj[y])[z]) + (if z == x then multiset(adj[x])[y] else 0)
    {
      var i := 0;
      assert adj[x][..0] == [];
      while i < |adj[x]|
        invariant 0 <= i <= |adj[x]|
        invariant rev.Valid() && rev.v == v && WellFormed(rev.adj)
        invariant rev.e == old(rev.e) + i
        invariant forall y, z :: 0 <= y < v && 0 <= z < v ==>
                    multiset(rev.adj[y])[z] == old(multiset(rev.adj[y])[z]) + (if z == x then multiset(adj[x][..i])[y] else 0)
      {
        var w := adj[x][i];
        assert adj[x][..i + 1] == adj[x][..i] + [w];
        ghost var before := rev.adj;
        WellFormedAppend(before, w, x);
        rev.AddEdge(w, x);
        forall y, z | 0 <= y < v && 0 <= z < v
          ensures multiset(rev.adj[y])[z] == multiset(before[y])[z] + (if y == w && z == x then 1 else 0)
        {
          AppendAt(before, w, x, y, z);
        }
        i := i + 1;
      }
      assert adj[x][..i] == adj[x];
    }
  }

  /** Appending a to list w adds one occurrence of a to list w only. */
  lemma AppendAt(lists: seq<seq<int>>, w: int, a: int, y: int, z: int)
    requires 0 <= w < |lists| && 0 <= y < |lists|
    ensures multiset(lists[w := lists[w] + [a]][y])[z] == multiset(lists[y])[z] + (if y == w && z == a then 1 else 0)
  {
  }

  /** A cycle that repeats no vertex except its closing one. */
  ghost predicate SimpleCycle(g: Adjacency, c: seq<int>)
  {
    IsCycle(g, c) && Distinct(c[1..])
  }

  /** The state of the cycle search while no cycle has been found: the
      vertices on the stack form a path linked backwards by edgeTo; a marked
      vertex off the stack is finished, its successors are finished too and
      finished earlier (time records the finishing order). */
  ghost predicate CycleSearchInv(g: Adjacency, stack: seq<int>, marked: seq<bool>, onStack: seq<bool>,
                                 edgeTo: seq<int>, time: seq<int>, clock: int)
  {
    |marked| == |g| && |onStack| == |g| && |edgeTo| == |g| && |time| == |g| && clock >= 0
    && (forall k :: 0 <= k < |stack| ==> 0 <= stack[k] < |g| && marked[stack[k]])
    && Distinct(stack)
    && (forall x :: 0 <= x < |g| ==> (onStack[x] <==> x in stack))
    && (forall k :: 0 < k < |stack| ==> edgeTo[stack[k]] == stack[k - 1] && stack[k] in g[stack[k - 1]])
    && (forall x :: 0 <= x < |g| && marked[x] && !onStack[x] ==> 0 <= time[x] < clock)
    && (forall x, i :: 0 <= x < |g| && marked[x] && !onStack[x] && 0 <= i < |g[x]| ==>
          0 <= g[x][i] < |g| && marked[g[x][i]] && !onStack[g[x][i]] && time[g[x][i]] < time[x])
  }

  /** A stack path path[j..] that ends at v, closed by the edge v->path[j], is a simple cycle. */
  lemma CycleFromStack(g: Adjacency, path: seq<int>, j: int)
    requires 0 <= j < |path|
    requires forall k :: 0 <= k < |path| ==> 0 <= path[k] < |g|
    requires forall k :: 0 < k < |path| ==> path[k] in g[path[k - 1]]
    requires Distinct(path)
    requires path[j] in g[path[|path| - 1]]
    ensures SimpleCycle(g, [path[|path| - 1]] + path[j..])
  {
    var c := [path[|path| - 1]] + path[j..];
    assert c[1..] == path[j..];
    forall i | 0 <= i < |c| ensures 0 <= c[i] < |g| {
      if i > 0 {
        assert c[i] == path[j + i - 1];
      }
    }
    forall i | 0 <= i < |c| - 1 ensures c[i + 1] in g[c[i]] {
      if i > 0 {
        assert c[i] == path[j + i - 1] && c[i + 1] == path[j + i];
      }
    }
    assert IsPath(g, c) && c[0] == c[|c| - 1];
    forall a, b | 0 <= a < b < |c[1..]| ensures c[1..][a] != c[1..][b] {
      assert c[1..][a] == path[j + a] && c[1..][b] == path[j + b];
    }
  }

  /** Entering dfs(v) pushes the unmarked vertex v on the stack. */
  lemma CyclePush(g: Adjacency, stack: seq<int>, marked: seq<bool>, onStack: seq<bool>,
                  edgeTo: seq<int>, time: seq<int>, clock: int, v: int)
    requires WellFormed(g) && 0 <= v < |g|
    requires CycleSearchInv(g, stack, marked, onStack, edgeTo, time, clock) && !marked[v]
    requires stack != [] ==> v in g[stack[|stack| - 1]] && edgeTo[v] == stack[|stack| - 1]
    ensures CycleSearchInv(g, stack + [v], marked[v := true], onStack[v := true], edgeTo, time, clock)
    ensures v !in stack
  {
    var path := stack + [v];
    forall k | 0 < k < |path|
      ensures edgeTo[path[k]] == path[k - 1] && path[k] in g[path[k - 1]]
    {
      if k < |stack| {
        assert path[k] == stack[k] && path[k - 1] == stack[k - 1];
      }
    }
  }

  /** Recording the tree edge v->w for an unmarked w keeps the stack links. */
  lemma CycleSetEdgeTo(g: Adjacency, stack: seq<int>, marked: seq<bool>, onStack: seq<bool>,
                       edgeTo: seq<int>, time: seq<int>, clock: int, w: int, v: int)
    requires 0 <= w < |g|
    requires CycleSearchInv(g, stack, marked, onStack, edgeTo, time, clock) && !marked[w]
    ensures CycleSearchInv(g, stack, marked, onStack, edgeTo[w := v], time, clock)
  {
  }

  /** Leaving dfs(v) once its successors are finished pops v and stamps its finishing time. */
  lemma CyclePop(g: Adjacency, stack: seq<int>, marked: seq<bool>, onStack: seq<bool>,
                 edgeTo: seq<int>, time: seq<int>, clock: int, v: int)
    requires WellFormed(g) && 0 <= v < |g| && v !in stack
    requires CycleSearchInv(g, stack + [v], marked, onStack, edgeTo, time, clock)
    requires forall j :: 0 <= j < |g[v]| ==> marked[g[v][j]] && !onStack[g[v][j]]
    ensures CycleSearchInv(g, stack, marked, onStack[v := false], edgeTo, time[v := clock], clock + 1)
  {
    var path := stack + [v];
    assert forall k :: 0 <= k < |stack| ==> stack[k] == path[k];
    assert marked[v] by {
      assert path[|stack|] == v;
    }
  }

  /** Follows edgeTo back from v until w, collecting v, ..., the vertex after
      w, and then appends w and v: the reverse of the cycle closed by v->w. */
  method WalkBack(edgeTo: array<int>, v: int, w: int, ghost path: seq<int>, ghost j: int)
    returns (cycle: seq<int>)
    requires 0 <= j < |path| && path[j] == w && path[|path| - 1] == v && Distinct(path)
    requires forall k :: 0 <= k < |path| ==> 0 <= path[k] < edgeTo.Length
    requires forall k :: 0 < k < |path| ==> edgeTo[path[k]] == path[k - 1]
    ensures Reversed(cycle) == [v] + path[j..]
  {
    cycle := [];
    var x := v;
    ghost var k := |path| - 1;
    while x != w
      invariant j <= k < |path|
      invariant x == path[k]
      invariant |cycle| == |path| - 1 - k
      invariant forall t :: 0 <= t < |cycle| ==> cycle[t] == path[|path| - 1 - t]
      decreases k
    {
      cycle := cycle + [x];
      x := edgeTo[x];
      k := k - 1;
    }
    cycle := cycle + [w];
    cycle := cycle + [v];
  }

  /** radj holds, as y->z, each edge z->y of adj with z < x, and nothing
      from the other vertices. */
  ghost predicate ReversedUpTo(radj: seq<seq<int>>, adj: seq<seq<int>>, x: int)
  {
    |radj| == |adj|
    && forall y, z :: 0 <= y < |adj| && 0 <= z < |adj| ==>
         multiset(radj[y])[z] == if z < x then multiset(adj[z])[y] else 0
  }

  /** Turning around the edges from x extends ReversedUpTo by one vertex. */
  lemma ReversedStep(before: seq<seq<int>>, after: seq<seq<int>>, adj: seq<seq<int>>, x: int)
    requires ReversedUpTo(before, adj, x) && 0 <= x < |adj| && |after| == |adj|
    requires forall y, z :: 0 <= y < |adj| && 0 <= z < |adj| ==>
               multiset(after[y])[z] == multiset(before[y])[z] + (if z == x then multiset(adj[x])[y] else 0)
    ensures ReversedUpTo(after, adj, x + 1)
  {
  }

  /** The state of dfs(v) after its first i successors: while no cycle is
      recorded those successors are finished. */
  ghost predicate CycleRound(g: Adjacency, v: int, i: int, entry: seq<bool>, cycle0: seq<int>, cycle: seq<int>,
                             marked: seq<bool>, onStack: seq<bool>, edgeTo: seq<int>, path: seq<int>,
                             time: seq<int>, clock: int)
  {
    WellFormed(g) && 0 <= v < |g| && 0 <= i <= |g[v]| && Grows(entry, marked)
    && (cycle0 != [] ==> cycle == cycle0)
    && (cycle != [] ==> SimpleCycle(g, Reversed(cycle)))
    && (cycle == [] ==> CycleSearchInv(g, path, marked, onStack, edgeTo, time, clock)
                        && forall j :: 0 <= j < i ==> marked[g[v][j]] && !onStack[g[v][j]])
  }

  lemma CycleRoundNext(g: Adjacency, v: int, i: int, entry: seq<bool>, cycle0: seq<int>,
                       marked: seq<bool>, onStack: seq<bool>, edgeTo: seq<int>, path: seq<int>,
                       time: seq<int>, clock: int, cycle': seq<int>, marked': seq<bool>, onStack': seq<bool>,
                       edgeTo': seq<int>, time': seq<int>, clock': int)
    requires CycleRound(g, v, i, entry, cycle0, [], marked, onStack, edgeTo, path, time, clock) && i < |g[v]|
    requires Grows(marked, marked')
    requires cycle' != [] ==> SimpleCycle(g, Reversed(cycle'))
    requires cycle' == [] ==> CycleSearchInv(g, path, marked', onStack', edgeTo', time', clock')
                              && marked'[g[v][i]] && !onStack'[g[v][i]] && onStack' == onStack
    ensures CycleRound(g, v, i + 1, entry, cycle0, cycle', marked', onStack', edgeTo', path, time', clock')
  {
    GrowsTrans(entry, marked, marked');
  }

  /** The recursive dfs of DirectedCycle. Once a cycle is recorded it
      returns at its next edge, leaving onStack[v] set. */
  method CycleVisit(g: Adjacency, v: int, marked: array<bool>, onStack: array<bool>, edgeTo: array<int>,
                    cycle0: seq<int>, ghost stack: seq<int>, ghost time0: seq<int>, ghost clock0: int)
    returns (cycle: seq<int>, ghost time: seq<int>, ghost clock: int)
    requires WellFormed(g) && 0 <= v < |g|
    requires marked.Length == |g| && onStack.Length == |g| && edgeTo.Length == |g| && marked != onStack
    requires !marked[v]
    requires cycle0 != [] ==> SimpleCycle(g, Reversed(cycle0))
    requires cycle0 == [] ==> CycleSearchInv(g, stack, marked[..], onStack[..], edgeTo[..], time0, clock0)
    requires cycle0 == [] && stack != [] ==> v in g[stack[|stack| - 1]] && edgeTo[v] == stack[|stack| - 1]
    modifies marked, onStack, edgeTo
    decreases Unvisited(marked[..]), 0
    ensures Grows(old(marked[..]), marked[..])
    ensures marked[v]
    ensures cycle0 != [] ==> cycle == cycle0
    ensures cycle != [] ==> SimpleCycle(g, Reversed(cycle))
    ensures cycle == [] ==> CycleSearchInv(g, stack, marked[..], onStack[..], edgeTo[..], time, clock) && !onStack[v]
  {
    if cycle0 == [] {
      CyclePush(g, stack, marked[..], onStack[..], edgeTo[..], time0, clock0, v);
    }
    UnvisitedMark(marked[..], v);
    onStack[v] := true;
    marked[v] := true;
    cycle, time, clock := cycle0, time0, clock0;
    ghost var path := stack + [v];
    ghost var entry := marked[..];
    assert Grows(old(marked[..]), entry);
    var stopped;
    cycle, stopped, time, clock := CycleSuccessors(g, v, marked, onStack, edgeTo, cycle0, path, time, clock);
    GrowsTrans(old(marked[..]), entry, marked[..]);
    if cycle == [] {
      CyclePop(g, stack, marked[..], onStack[..], edgeTo[..], time, clock, v);
      time := time[v := clock];
      clock := clock + 1;
    }
    if !stopped {
      ghost var os := onStack[..];
      onStack[v] := false;
      assert onStack[..] == os[v := false];
    }
  }

  /** The loop of dfs(v) over v's successors; it stops at the first edge
      after a cycle is recorded, and then says so in stopped. */
  method CycleSuccessors(g: Adjacency, v: int, marked: array<bool>, onStack: array<bool>, edgeTo: array<int>,
                         cycle0: seq<int>, ghost path: seq<int>, ghost time0: seq<int>, ghost clock0: int)
    returns (cycle: seq<int>, stopped: bool, ghost time: seq<int>, ghost clock: int)
    requires marked.Length == |g| && onStack.Length == |g| && edgeTo.Length == |g| && marked != onStack
    requires path != [] && path[|path| - 1] == v
    requires CycleRound(g, v, 0, marked[..], cycle0, cycle0, marked[..], onStack[..], edgeTo[..], path, time0, clock0)
    modifies marked, onStack, edgeTo
    decreases Unvisited(marked[..]), 2
    ensures CycleRound(g, v, |g[v]|, old(marked[..]), cycle0, cycle, marked[..], onStack[..], edgeTo[..], path,
                       time, clock)
    ensures stopped ==> cycle != []
  {
    ghost var entry := marked[..];
    cycle, stopped, time, clock := cycle0, false, time0, clock0;
    var i := 0;
    while i < |g[v]|
      invariant CycleRound(g, v, i, entry, cycle0, cycle, marked[..], onStack[..], edgeTo[..], path, time, clock)
    {
      if cycle != [] {
        stopped := true;
        return;
      }
      UnvisitedMonotone(entry, marked[..]);
      ghost var m, os, et, t, c := marked[..], onStack[..], edgeTo[..], time, clock;
      cycle, time, clock := CycleEdge(g, v, g[v][i], marked, onStack, edgeTo, path, time, clock);
      CycleRoundNext(g, v, i, entry, cycle0, m, os, et, path, t, c, cycle, marked[..], onStack[..], edgeTo[..],
                     time, clock);
      i := i + 1;
    }
  }

  /** One edge v->w of dfs(v) while no cycle is recorded: an unmarked w gets
      edgeTo[w] = v and is searched; a w still on the stack closes a cycle,
      collected by walking edgeTo back from v; a finished w is skipped. */
  method CycleEdge(g: Adjacency, v: int, w: int, marked: array<bool>, onStack: array<bool>, edgeTo: array<int>,
                   ghost path: seq<int>, ghost time0: seq<int>, ghost clock0: int)
    returns (cycle: seq<int>, ghost time: seq<int>, ghost clock: int)
    requires WellFormed(g) && 0 <= v < |g| && w in g[v]
    requires marked.Length == |g| && onStack.Length == |g| && edgeTo.Length == |g| && marked != onStack
    requires CycleSearchInv(g, path, marked[..], onStack[..], edgeTo[..], time0, clock0)
    requires path != [] && path[|path| - 1] == v
    modifies marked, onStack, edgeTo
    decreases Unvisited(marked[..]), 1
    ensures Grows(old(marked[..]), marked[..])
    ensures cycle != [] ==> SimpleCycle(g, Reversed(cycle))
    ensures cycle == [] ==> CycleSearchInv(g, path, marked[..], onStack[..], edgeTo[..], time, clock)
    ensures cycle == [] ==> marked[w] && !onStack[w] && onStack[..] == old(onStack[..])
  {
    cycle, time, clock := [], time0, clock0;
    if !marked[w] {
      CycleSetEdgeTo(g, path, marked[..], onStack[..], edgeTo[..], time, clock, w, v);
      edgeTo[w] := v;
      cycle, time, clock := CycleVisit(g, w, marked, onStack, edgeTo, [], path, time, clock);
      if cycle == [] {
        assert forall x :: 0 <= x < |g| ==> onStack[x] == old(onStack[x]);
      }
    } else if onStack[w] {
      assert w in path;
      ghost var j :| 0 <= j < |path| && path[j] == w;
      cycle := WalkBack(edgeTo, v, w, path, j);
      CycleFromStack(g, path, j);
    }
  }

  /** DirectedCycle: the empty sequence exactly when di has no cycle, and
      otherwise a simple cycle of di (first vertex equal to the last, every
      consecutive pair an edge). */
  method DirectedCycle(di: Digraph) returns (r: seq<int>)
    requires di.Valid() && WellFormed(di.adj)
    ensures r == [] <==> Acyclic(di.adj)
    ensures r != [] ==> SimpleCycle(di.adj, r)
  {
    var g := di.adj;
    var n := di.V();
    var marked := new bool[n](_ => false);
    var edgeTo := new int[n](_ => 0);
    var onStack := new bool[n](_ => false);
    var cycle := CycleRoots(g, marked, onStack, edgeTo);
    var a := ToArray(cycle);
    a := Reverse(a);
    r := a[..];
    if cycle != [] {
      assert IsCycle(g, r);
    }
  }

  /** DirectedCycle's outer loop: a dfs from every unmarked vertex in
      ascending order until a cycle is recorded. */
  method CycleRoots(g: Adjacency, marked: array<bool>, onStack: array<bool>, edgeTo: array<int>)
    returns (cycle: seq<int>)
    requires WellFormed(g) && marked.Length == |g| && onStack.Length == |g| && edgeTo.Length == |g|
    requires marked != onStack
    requires forall x :: 0 <= x < |g| ==> !marked[x] && !onStack[x]
    modifies marked, onStack, edgeTo
    ensures cycle != [] ==> SimpleCycle(g, Reversed(cycle))
    ensures cycle == [] ==> Acyclic(g)
  {
    var n := |g|;
    cycle := [];
    ghost var time: seq<int> := seq(n, _ => 0);
    ghost var clock := 0;
    var v := 0;
    while v < n
      invariant 0 <= v <= n
      invariant cycle != [] ==> SimpleCycle(g, Reversed(cycle))
      invariant cycle == [] ==> CycleSearchInv(g, [], marked[..], onStack[..], edgeTo[..], time, clock)
      invariant forall x :: 0 <= x < v ==> marked[x]
    {
      if !marked[v] {
        ghost var m0 := marked[..];
        cycle, time, clock := CycleVisit(g, v, marked, onStack, edgeTo, cycle, [], time, clock);
        forall x | 0 <= x < v ensures marked[x] {
          assert m0[x];
        }
      }
      v := v + 1;
    }
    if cycle == [] {
      RankedAcyclic(g, time);
    }
  }

  /** The state of Sort's dfs: the stack is a path of marked vertices, post
      lists the finished ones without repetition, and in an acyclic graph
      every successor of a finished vertex finished before it. */
  ghost predicate SortInv(g: Adjacency, stack: seq<int>, marked: seq<bool>, post: seq<int>)
  {
    |marked| == |g|
    && (forall k :: 0 <= k < |stack| ==> 0 <= stack[k] < |g| && marked[stack[k]])
    && (forall k :: 0 < k < |stack| ==> stack[k] in g[stack[k - 1]])
    && (forall k :: 0 <= k < |post| ==> 0 <= post[k] < |g| && marked[post[k]] && post[k] !in stack)
    && Distinct(post)
    && (forall x :: 0 <= x < |g| && marked[x] ==> x in stack || x in post)
    && |post| + |stack| + Unvisited(marked) == |g|
    && (Acyclic(g) ==> forall k, i :: 0 <= k < |post| && 0 <= i < |g[post[k]]| ==> g[post[k]][i] in post[..k])
  }

  /** Marking an unmarked successor of the stack top pushes it. */
  lemma SortInvPush(g: Adjacency, stack: seq<int>, marked: seq<bool>, post: seq<int>, v: int)
    requires 0 <= v < |g| && SortInv(g, stack, marked, post) && !marked[v]
    requires stack != [] ==> v in g[stack[|stack| - 1]]
    ensures SortInv(g, stack + [v], marked[v := true], post)
    ensures v !in stack
  {
    UnvisitedMark(marked, v);
  }

  /** Appending v to post once its successors are done pops it. */
  lemma SortInvPop(g: Adjacency, stack: seq<int>, marked: seq<bool>, post: seq<int>, v: int)
    requires 0 <= v < |g| && v !in stack
    requires SortInv(g, stack + [v], marked, post) && marked[v]
    requires Acyclic(g) ==> forall j :: 0 <= j < |g[v]| ==> g[v][j] in post
    ensures SortInv(g, stack, marked, post + [v])
  {
    var post' := post + [v];
    var path := stack + [v];
    assert forall k :: 0 <= k < |stack| ==> stack[k] == path[k];
    assert forall k :: 0 <= k < |post| ==> post'[..k] == post[..k];
    assert post'[..|post|] == post;
    forall x | 0 <= x < |g| && marked[x] ensures x in stack || x in post' {
      assert x in stack + [v] || x in post;
    }
  }

  /** A path along the stack from w back to w is a cycle. */
  lemma StackCycle(g: Adjacency, path: seq<int>, j: int)
    requires 0 <= j < |path|
    requires forall k :: 0 <= k < |path| ==> 0 <= path[k] < |g|
    requires forall k :: 0 < k < |path| ==> path[k] in g[path[k - 1]]
    requires path[j] in g[path[|path| - 1]]
    ensures IsCycle(g, path[j..] + [path[j]])
  {
    var c := path[j..] + [path[j]];
    forall t | 0 <= t < |c| - 1 ensures c[t + 1] in g[c[t]] {
      if t < |c| - 2 {
        assert c[t] == path[j + t] && c[t + 1] == path[j + t + 1];
      }
    }
  }

  /** The state of Sort's visit of v after its first i successors. */
  ghost predicate SortRound(g: Adjacency, v: int, i: int, entry: seq<bool>, marked: seq<bool>,
                            path: seq<int>, post0: seq<int>, post: seq<int>)
  {
    0 <= v < |g| && 0 <= i <= |g[v]| && Grows(entry, marked) && SortInv(g, path, marked, post)
    && post0 <= post
    && (Acyclic(g) ==> forall j :: 0 <= j < i ==> g[v][j] in post)
  }

  lemma SortRoundNext(g: Adjacency, v: int, i: int, entry: seq<bool>, marked: seq<bool>, path: seq<int>,
                      post0: seq<int>, post: seq<int>, marked': seq<bool>, post': seq<int>)
    requires SortRound(g, v, i, entry, marked, path, post0, post) && i < |g[v]|
    requires Grows(marked, marked') && SortInv(g, path, marked', post') && post <= post'
    requires Acyclic(g) ==> g[v][i] in post'
    ensures SortRound(g, v, i + 1, entry, marked', path, post0, post')
  {
    GrowsTrans(entry, marked, marked');
    forall j | 0 <= j < i && Acyclic(g) ensures g[v][j] in post' {
      var k :| 0 <= k < |post| && post[k] == g[v][j];
      assert post'[k] == post[k];
    }
  }

  /** Sort's visit: marks v, visits its unmarked successors, then appends v. */
  method SortVisit(g: Adjacency, v: int, marked: array<bool>, post0: seq<int>, ghost stack: seq<int>)
    returns (post: seq<int>)
    requires WellFormed(g) && 0 <= v < |g| && marked.Length == |g| && !marked[v]
    requires SortInv(g, stack, marked[..], post0)
    requires stack != [] ==> v in g[stack[|stack| - 1]]
    modifies marked
    decreases Unvisited(marked[..]), 0
    ensures SortInv(g, stack, marked[..], post)
    ensures marked[v] && v in post
    ensures post0 <= post && Grows(old(marked[..]), marked[..])
  {
    SortInvPush(g, stack, marked[..], post0, v);
    UnvisitedMark(marked[..], v);
    marked[v] := true;
    post := post0;
    ghost var path := stack + [v];
    ghost var entry := marked[..];
    var i := 0;
    while i < |g[v]|
      invariant SortRound(g, v, i, entry, marked[..], path, post0, post)
    {
      UnvisitedMonotone(entry, marked[..]);
      ghost var m, p := marked[..], post;
      post := SortEdge(g, v, g[v][i], marked, post, path);
      SortRoundNext(g, v, i, entry, m, path, post0, p, marked[..], post);
      i := i + 1;
    }
    GrowsTrans(old(marked[..]), entry, marked[..]);
    SortInvPop(g, stack, marked[..], post, v);
    post := post + [v];
  }

  /** One edge v->w of Sort's visit: an unmarked w is visited; in an
      acyclic graph a marked w is already finished, since a w still on the
      stack would close a cycle. */
  method SortEdge(g: Adjacency, v: int, w: int, marked: array<bool>, post0: seq<int>, ghost path: seq<int>)
    returns (post: seq<int>)
    requires WellFormed(g) && 0 <= v < |g| && w in g[v] && marked.Length == |g|
    requires SortInv(g, path, marked[..], post0) && path != [] && path[|path| - 1] == v
    modifies marked
    decreases Unvisited(marked[..]), 1
    ensures SortInv(g, path, marked[..], post) && post0 <= post && Grows(old(marked[..]), marked[..])
    ensures Acyclic(g) ==> w in post
  {
    post := post0;
    if !marked[w] {
      post := SortVisit(g, w, marked, post0, path);
    } else if Acyclic(g) && w !in post {
      assert w in path;
      ghost var j :| 0 <= j < |path| && path[j] == w;
      StackCycle(g, path, j);
      assert false;
    }
  }

  /** A digraph wrapper built only from a digraph without a cycle. It shares
      the digraph, so edges added to it later are seen here too. */
  class DAG {
    const d: Digraph

    constructor (di: Digraph)
      ensures d == di
    {
      d := di;
    }

    /** The reverse postorder of a dfs from every unmarked vertex in
        ascending order: a permutation of the vertices in which, while the
        digraph has no cycle, no edge leads back to an earlier vertex. */
    method Sort() returns (order: seq<int>)
      requires d.Valid() && WellFormed(d.adj)
      ensures |order| == d.v && Distinct(order)
      ensures forall k :: 0 <= k < |order| ==> 0 <= order[k] < d.v
      ensures forall x :: 0 <= x < d.v ==> x in order
      ensures Acyclic(d.adj) ==> forall i, j :: 0 <= i <= j < |order| ==> order[i] !in d.adj[order[j]]
    {
      var g := d.adj;
      var n := d.V();
      var marked := new bool[n](_ => false);
      var post := Postorder(g, marked);
      ghost var m := marked[..];
      var a := ToArray(post);
      a := Reverse(a);
      order := a[..];
      ReversePostorder(g, m, post);
    }
  }

  /** Sort's outer loop: a dfs from every unmarked vertex in ascending
      order, collecting the postorder. */
  method Postorder(g: Adjacency, marked: array<bool>) returns (post: seq<int>)
    requires WellFormed(g) && marked.Length == |g| && forall x :: 0 <= x < |g| ==> !marked[x]
    modifies marked
    ensures SortInv(g, [], marked[..], post) && forall x :: 0 <= x < |g| ==> marked[x]
  {
    var n := |g|;
    post := [];
    assert Unvisited(marked[..]) == n by {
      UnvisitedAllFalse(marked[..]);
    }
    var v := 0;
    while v < n
      invariant 0 <= v <= n
      invariant SortInv(g, [], marked[..], post)
      invariant forall x :: 0 <= x < v ==> marked[x]
    {
      if !marked[v] {
        post := SortVisit(g, v, marked, post, []);
      }
      v := v + 1;
    }
  }

  /** Once every vertex is marked and none is on the stack, the reversed
      postorder lists every vertex once, and in an acyclic graph no edge
      leads back to an earlier vertex. */
  lemma ReversePostorder(g: Adjacency, marked: seq<bool>, post: seq<int>)
    requires SortInv(g, [], marked, post) && forall x :: 0 <= x < |g| ==> marked[x]
    ensures |Reversed(post)| == |g| && Distinct(Reversed(post))
    ensures forall k :: 0 <= k < |g| ==> 0 <= Reversed(post)[k] < |g|
    ensures forall x :: 0 <= x < |g| ==> x in Reversed(post)
    ensures Acyclic(g) ==> forall i, j :: 0 <= i <= j < |g| ==> Reversed(post)[i] !in g[Reversed(post)[j]]
  {
    var n, order := |g|, Reversed(post);
    UnvisitedNone(marked);
    forall x | 0 <= x < n ensures x in order {
      assert x in post;
      var k :| 0 <= k < n && post[k] == x;
      assert order[n - 1 - k] == x;
    }
    forall i, j | 0 <= i < j < n ensures order[i] != order[j] {
      assert order[i] == post[n - 1 - i] && order[j] == post[n - 1 - j];
    }
    forall i, j | 0 <= i <= j < n && Acyclic(g) ensures order[i] !in g[order[j]] {
      assert order[j] == post[n - 1 - j];
    }
  }

  /** NewDAG: a DAG over d when d has no cycle, and an error otherwise. */
  method NewDAG(d: Digraph) returns (r: Result<DAG>)
    requires d.Valid() && WellFormed(d.adj)
    ensures r.Ok? <==> Acyclic(d.adj)
    ensures r.Ok? ==> r.value.d == d
    ensures r.Err? ==> r.message == "Digraph has at least one cycle"
  {
    var c := DirectedCycle(d);
    if |c| == 0 {
      var dag := new DAG(d);
      r := Ok(dag);
    } else {
      r := Err("Digraph has at least one cycle");
    }
  }
}
