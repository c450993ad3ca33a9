// Depth-first orders of a digraph: the vertices in preorder, in postorder
// and in reverse postorder, as one depth-first search from every vertex in
// ascending order, skipping those already reached, produces them.
module DepthFirstOrders {
  import opened Sequences
  import opened Graphs
  import PathFinders

  /** The three orders of one search. */
  datatype Orders = Orders(pre: seq<int>, post: seq<int>, reversePost: seq<int>)

  /** s lists every vertex of a graph with n vertices exactly once. */
  predicate IsOrdering(s: seq<int>, n: int)
  {
    |s| == n && Distinct(s)
    && (forall k :: 0 <= k < |s| ==> 0 <= s[k] < n)
    && (forall x :: 0 <= x < n ==> x in s)
  }

  /** Reversing an ordering gives an ordering. */
  lemma ReversedOrdering(s: seq<int>, n: int)
    requires IsOrdering(s, n)
    ensures IsOrdering(Reversed(s), n)
  {
    var r := Reversed(s);
    forall i, j | 0 <= i < j < |r| ensures r[i] != r[j] {
      assert r[i] == s[|s| - 1 - i] && r[j] == s[|s| - 1 - j];
    }
    forall x | 0 <= x < n ensures x in r {
      assert x in s;
      var k :| 0 <= k < |s| && s[k] == x;
      assert r[|s| - 1 - k] == x;
    }
  }

  /** The state of the search: pre lists the marked vertices in the order
      they were reached; post lists those whose visit is over, in the order
      it ended; the rest of the marked vertices are on the stack; a
      finished vertex has all its successors marked. */
  ghost predicate Searched(g: Adjacency, marked: seq<bool>, pre: seq<int>, post: seq<int>, stack: seq<int>)
  {
    |marked| == |g|
    && Distinct(pre) && (forall k :: 0 <= k < |pre| ==> 0 <= pre[k] < |g|)
    && (forall x :: 0 <= x < |g| ==> (marked[x] <==> x in pre))
    && |pre| + Unvisited(marked) == |g|
    && Distinct(post) && |pre| == |post| + |stack|
    && (forall k :: 0 <= k < |post| ==> 0 <= post[k] < |g| && marked[post[k]] && post[k] !in stack)
    && (forall k :: 0 <= k < |stack| ==> 0 <= stack[k] < |g| && marked[stack[k]])
    && (forall x :: 0 <= x < |g| && marked[x] ==> x in stack || x in post)
    && (forall x, i :: 0 <= x < |g| && marked[x] && x !in stack && 0 <= i < |g[x]| ==>
          0 <= g[x][i] < |g| && marked[g[x][i]])
  }

  lemma SearchedPush(g: Adjacency, marked: seq<bool>, pre: seq<int>, post: seq<int>, stack: seq<int>, v: int)
    requires Searched(g, marked, pre, post, stack) && 0 <= v < |g| && !marked[v]
    ensures Searched(g, marked[v := true], pre + [v], post, stack + [v])
    ensures Unvisited(marked[v := true]) < Unvisited(marked)
  {
    UnvisitedMark(marked, v);
    var m, p := marked[v := true], pre + [v];
    assert forall k :: 0 <= k < |pre| ==> p[k] == pre[k];
    forall x, i | 0 <= x < |g| && m[x] && x !in stack + [v] && 0 <= i < |g[x]|
      ensures 0 <= g[x][i] < |g| && m[g[x][i]]
    {
      assert marked[x];
    }
  }

  lemma SearchedPop(g: Adjacency, marked: seq<bool>, pre: seq<int>, post: seq<int>, stack: seq<int>, v: int)
    requires Searched(g, marked, pre, post, stack + [v]) && 0 <= v < |g| && marked[v] && v !in stack
    requires forall i :: 0 <= i < |g[v]| ==> 0 <= g[v][i] < |g| && marked[g[v][i]]
    ensures Searched(g, marked, pre, post + [v], stack)
  {
    var q, s := post + [v], stack + [v];
    assert forall k :: 0 <= k < |post| ==> q[k] == post[k];
    assert forall k :: 0 <= k < |stack| ==> s[k] == stack[k];
    assert v !in post;
  }

  /** Something in a suffix of a prefix of t is in that suffix of t. */
  lemma SuffixGrows<T>(s: seq<T>, t: seq<T>, n: int, x: T)
    requires 0 <= n <= |s| <= |t| && t[..|s|] == s && x in s[n..]
    ensures x in t[n..]
  {
    var j :| 0 <= j < |s| - n && s[n..][j] == x;
    assert t[n..][j] == x;
  }

  /** Something in t[m..] is in t[n..] when n <= m. */
  lemma SuffixWithin<T>(t: seq<T>, n: int, m: int, x: T)
    requires 0 <= n <= m <= |t| && x in t[m..]
    ensures x in t[n..]
  {
    var j :| 0 <= j < |t| - m && t[m..][j] == x;
    assert t[n..][j + m - n] == x;
  }

  /** The loop of dfs(v) after its first i successors: the state of the
      search with v on top of the stack, the prefixes pre0 and post0 that
      were there when the call began kept, and everything reached since
      then either on the stack above the caller's part or finished since. */
  ghost predicate Visiting(g: Adjacency, marked: seq<bool>, pre: seq<int>, post: seq<int>, stack: seq<int>, v: int, i: int,
                           entry: seq<bool>, pre0: seq<int>, post0: seq<int>)
  {
    Searched(g, marked, pre, post, stack + [v])
    && 0 <= v < |g| && marked[v] && v !in stack && 0 <= i <= |g[v]|
    && (forall j :: 0 <= j < i ==> 0 <= g[v][j] < |g| && marked[g[v][j]])
    && |entry| == |g| && Grows(entry, marked)
    && |pre0| < |pre| && pre[..|pre0|] == pre0 && pre[|pre0|] == v
    && |post0| <= |post| && post[..|post0|] == post0
    && (forall x :: x in pre[|pre0| + 1..] ==> x in post[|post0|..])
  }

  /** One successor handled, by a nested call or because it was marked. */
  lemma VisitingStep(g: Adjacency, marked: seq<bool>, pre: seq<int>, post: seq<int>, stack: seq<int>, v: int, i: int,
                     entry: seq<bool>, pre0: seq<int>, post0: seq<int>,
                     marked': seq<bool>, pre': seq<int>, post': seq<int>)
    requires Visiting(g, marked, pre, post, stack, v, i, entry, pre0, post0) && i < |g[v]|
    requires Searched(g, marked', pre', post', stack + [v]) && 0 <= g[v][i] < |g| && marked'[g[v][i]]
    requires Grows(marked, marked')
    requires |pre| <= |pre'| && pre'[..|pre|] == pre && |post| <= |post'| && post'[..|post|] == post
    requires forall x :: x in pre'[|pre|..] ==> x in post'[|post|..]
    ensures Visiting(g, marked', pre', post', stack, v, i + 1, entry, pre0, post0)
  {
    assert pre'[..|pre0|] == pre[..|pre0|];
    assert post'[..|post0|] == post[..|post0|];
    forall x | x in pre'[|pre0| + 1..] ensures x in post'[|post0|..] {
      var k :| |pre0| + 1 <= k < |pre'| && pre'[k] == x;
      if k < |pre| {
        assert pre[k] == x;
        assert x in pre[|pre0| + 1..];
        SuffixGrows(post, post', |post0|, x);
      } else {
        assert pre'[|pre|..][k - |pre|] == x;
        assert x in pre'[|pre|..];
        SuffixWithin(post', |post0|, |post|, x);
      }
    }
  }

  /** dfs(v) of the source: marks v, appends it to pre, visits every
      unmarked successor in adjacency order and appends v to post. Every
      vertex first reached inside the call is appended to post inside it,
      before v. */
  method OrderVisit(g: Adjacency, v: int, marked: array<bool>, pre0: seq<int>, post0: seq<int>, ghost stack: seq<int>)
      returns (pre: seq<int>, post: seq<int>)
    requires WellFormed(g) && marked.Length == |g| && 0 <= v < |g| && !marked[v]
    requires Searched(g, marked[..], pre0, post0, stack)
    modifies marked
    decreases Unvisited(marked[..]), 0
    ensures Searched(g, marked[..], pre, post, stack) && marked[v]
    ensures Grows(old(marked[..]), marked[..])
    ensures |pre0| < |pre| && pre[..|pre0|] == pre0 && pre[|pre0|] == v
    ensures |post0| < |post| && post[..|post0|] == post0 && post[|post| - 1] == v
    ensures forall x :: x in pre[|pre0|..] ==> x in post[|post0|..]
  {
    SearchedPush(g, marked[..], pre0, post0, stack, v);
    UnvisitedMark(marked[..], v);
    pre := pre0 + [v];
    marked[v] := true;
    post := post0;
    ghost var entry := marked[..];
    assert Grows(old(marked[..]), entry);
    pre, post := OrderSuccessors(g, v, marked, pre, post, stack, pre0, post0);
    GrowsTrans(old(marked[..]), entry, marked[..]);
    VisitingDone(g, marked[..], pre, post, stack, v, entry, pre0, post0);
    post := post + [v];
  }

  /** The loop of dfs(v): each unmarked successor, in adjacency order, is
      searched by a nested call. */
  method OrderSuccessors(g: Adjacency, v: int, marked: array<bool>, pre1: seq<int>, post1: seq<int>,
                         ghost stack: seq<int>, ghost pre0: seq<int>, ghost post0: seq<int>)
      returns (pre: seq<int>, post: seq<int>)
    requires WellFormed(g) && marked.Length == |g| && 0 <= v < |g|
    requires Visiting(g, marked[..], pre1, post1, stack, v, 0, marked[..], pre0, post0)
    modifies marked
    decreases Unvisited(marked[..]), 1
    ensures Visiting(g, marked[..], pre, post, stack, v, |g[v]|, old(marked[..]), pre0, post0)
  {
    pre, post := pre1, post1;
    ghost var entry := marked[..];
    var i := 0;
    while i < |g[v]|
      invariant Visiting(g, marked[..], pre, post, stack, v, i, entry, pre0, post0)
    {
      var adj := g[v][i];
      if !marked[adj] {
        UnvisitedMonotone(entry, marked[..]);
        ghost var m, p, q := marked[..], pre, post;
        pre, post := OrderVisit(g, adj, marked, pre, post, stack + [v]);
        VisitingStep(g, m, p, q, stack, v, i, entry, pre0, post0, marked[..], pre, post);
      } else {
        VisitingStep(g, marked[..], pre, post, stack, v, i, entry, pre0, post0, marked[..], pre, post);
      }
      i := i + 1;
    }
  }

  /** Leaving dfs(v) once every successor is handled: v joins post, and
      everything reached inside the call is in post after post0. */
  lemma VisitingDone(g: Adjacency, marked: seq<bool>, pre: seq<int>, post: seq<int>, stack: seq<int>, v: int,
                     entry: seq<bool>, pre0: seq<int>, post0: seq<int>)
    requires 0 <= v < |g| && Visiting(g, marked, pre, post, stack, v, |g[v]|, entry, pre0, post0)
    ensures Searched(g, marked, pre, post + [v], stack)
    ensures |post0| < |post + [v]| && (post + [v])[..|post0|] == post0
    ensures forall x :: x in pre[|pre0|..] ==> x in (post + [v])[|post0|..]
  {
    var q := post + [v];
    SearchedPop(g, marked, pre, post, stack, v);
    assert q[..|post0|] == post[..|post0|];
    forall x | x in pre[|pre0|..] ensures x in q[|post0|..] {
      if x != v {
        var k :| |pre0| <= k < |pre| && pre[k] == x;
        assert pre[|pre0| + 1..][k - |pre0| - 1] == x;
        SuffixGrows(post, q, |post0|, x);
      } else {
        assert q[|q| - 1] == v;
      }
    }
  }

  /** With nothing on the stack the marked vertices are closed under edges. */
  lemma SearchedClosed(g: Adjacency, marked: seq<bool>, pre: seq<int>, post: seq<int>)
    requires Searched(g, marked, pre, post, [])
    ensures Closed(g, marked)
  {
  }

  /** The outer loop of BuildDFO before vertex i: every vertex below i is
      marked; after the first root, last is the root searched last and post
      ends with it; when every vertex is reachable from 0 the first search
      already marked them all. */
  ghost predicate Scanned(g: Adjacency, marked: seq<bool>, pre: seq<int>, post: seq<int>, i: int, last: int)
  {
    Searched(g, marked, pre, post, []) && 0 <= i <= |g|
    && (forall x :: 0 <= x < i ==> marked[x])
    && (i == 0 ==> pre == [])
    && (i > 0 ==> |pre| > 0 && pre[0] == 0 && |post| > 0 && post[|post| - 1] == last)
    && (i > 0 && (forall x :: 0 <= x < |g| ==> Reachable(g, 0, x)) ==>
          last == 0 && forall x :: 0 <= x < |g| ==> marked[x])
  }

  /** The first search from 0 marks everything reachable from 0. */
  lemma ScannedFirst(g: Adjacency, marked: seq<bool>, pre: seq<int>, post: seq<int>)
    requires Searched(g, marked, pre, post, []) && |g| > 0 && marked[0]
    requires |pre| > 0 && pre[0] == 0 && |post| > 0 && post[|post| - 1] == 0
    ensures Scanned(g, marked, pre, post, 1, 0)
  {
    SearchedClosed(g, marked, pre, post);
    if forall x :: 0 <= x < |g| ==> Reachable(g, 0, x) {
      forall x | 0 <= x < |g| ensures marked[x] {
        ClosedReach(g, marked, 0, x);
      }
    }
  }

  /** A search from the unmarked vertex i > 0 moves the scan on. */
  lemma ScannedVisit(g: Adjacency, marked: seq<bool>, pre: seq<int>, post: seq<int>, i: int, last: int,
                     marked': seq<bool>, pre': seq<int>, post': seq<int>)
    requires Scanned(g, marked, pre, post, i, last) && 0 < i < |g| && !marked[i]
    requires Searched(g, marked', pre', post', []) && marked'[i]
    requires forall x :: 0 <= x < |g| && marked[x] ==> marked'[x]
    requires |pre| < |pre'| && pre'[..|pre|] == pre && |post'| > 0 && post'[|post'| - 1] == i
    ensures Scanned(g, marked', pre', post', i + 1, i)
  {
    assert pre'[0] == pre[0];
  }

  /** A marked vertex i is skipped. */
  lemma ScannedSkip(g: Adjacency, marked: seq<bool>, pre: seq<int>, post: seq<int>, i: int, last: int)
    requires Scanned(g, marked, pre, post, i, last) && 0 <= i < |g| && marked[i]
    ensures Scanned(g, marked, pre, post, i + 1, last)
  {
  }

  /** At the end of the scan both logs list every vertex once. */
  lemma ScannedAll(g: Adjacency, marked: seq<bool>, pre: seq<int>, post: seq<int>, last: int)
    requires Scanned(g, marked, pre, post, |g|, last)
    ensures IsOrdering(pre, |g|) && IsOrdering(post, |g|)
    ensures |g| > 0 ==> pre[0] == 0
    ensures (|g| > 0 && forall x :: 0 <= x < |g| ==> Reachable(g, 0, x)) ==> post[|g| - 1] == 0
  {
    UnvisitedNone(marked);
  }

  /** BuildDFO: a depth-first search from every unmarked vertex in
      ascending order. Pre and Post list every vertex once, ReversePost is
      Post reversed, the first search starts at 0, and when every vertex is
      reachable from 0 that search finishes last, so 0 heads ReversePost. */
  method BuildDFO(g: Adjacency) returns (dfo: Orders)
    requires WellFormed(g)
    ensures IsOrdering(dfo.pre, |g|) && IsOrdering(dfo.post, |g|)
    ensures dfo.reversePost == Reversed(dfo.post) && IsOrdering(dfo.reversePost, |g|)
    ensures |g| > 0 ==> dfo.pre[0] == 0
    ensures (|g| > 0 && forall x :: 0 <= x < |g| ==> Reachable(g, 0, x)) ==> dfo.reversePost[0] == 0
  {
    var marked := new bool[|g|](_ => false);
    UnvisitedAllFalse(marked[..]);
    var pre, post := [], [];
    ghost var last := 0;
    var i := 0;
    while i < |g|
      invariant marked.Length == |g|
      invariant Scanned(g, marked[..], pre, post, i, last)
    {
      if !marked[i] {
        ghost var m, p, q := marked[..], pre, post;
        pre, post := OrderVisit(g, i, marked, pre, post, []);
        if i == 0 {
          ScannedFirst(g, marked[..], pre, post);
        } else {
          ScannedVisit(g, m, p, q, i, last, marked[..], pre, post);
        }
        last := i;
      } else {
        ScannedSkip(g, marked[..], pre, post, i, last);
      }
      i := i + 1;
    }
    ScannedAll(g, marked[..], pre, post, last);
    // ReversePost receives the same appends as Post, then is reversed in place.
    var reversePost := PathFinders.ReversedPath(post);
    ReversedOrdering(post, |g|);
    dfo := Orders(pre, post, reversePost);
  }
}
