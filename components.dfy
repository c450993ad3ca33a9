// Connected components (BuildCC) and the two-pass labelling BuildSCC
// calls strongly connected components. Both label vertices with the same
// depth-first search: every unmarked vertex, taken in a given order,
// becomes a root, and the search from it gives every vertex it newly
// reaches the root's number. BuildCC takes the vertices in ascending
// order, BuildSCC in the reverse postorder of a first search of the same
// digraph.
module Components {
  import opened Sequences
  import opened Graphs
  import opened DepthFirstOrders

  /** The final labelling: roots[k] has id k; every vertex has an id and
      is reachable from the root with that id; and everything root k
      reaches has an id no larger than k. */
  ghost predicate Labelled(g: Adjacency, id: seq<int>, roots: seq<int>)
  {
    |id| == |g|
    && (forall k :: 0 <= k < |roots| ==> 0 <= roots[k] < |g| && id[roots[k]] == k)
    && (forall x :: 0 <= x < |g| ==> 0 <= id[x] < |roots| && Reachable(g, roots[id[x]], x))
    && Below(g, id, roots)
  }

  /** Everything root k reaches is labelled no higher than k. */
  ghost predicate Below(g: Adjacency, id: seq<int>, roots: seq<int>)
  {
    |id| == |g|
    && forall k, x {:trigger Reachable(g, roots[k], x)} :: 0 <= k < |roots| && Reachable(g, roots[k], x) ==> 0 <= x < |g| && id[x] <= k
  }

  /** Labels during the search: rs holds the finished roots and the one
      being searched, which alone may still be unmarked; every marked
      vertex has an id and is reachable from the root with that id. */
  ghost predicate Labels(g: Adjacency, marked: seq<bool>, id: seq<int>, rs: seq<int>)
  {
    |marked| == |g| && |id| == |g|
    && (forall k :: 0 <= k < |rs| ==> 0 <= rs[k] < |g|)
    && (forall k :: 0 <= k < |rs| - 1 ==> marked[rs[k]])
    && (forall k :: 0 <= k < |rs| && marked[rs[k]] ==> id[rs[k]] == k)
    && (forall x :: 0 <= x < |g| && marked[x] ==> 0 <= id[x] < |rs| && Reachable(g, rs[id[x]], x))
  }

  /** Labels plus the stack of the search: the vertices on it are marked,
      and a marked vertex off the stack has all its successors marked. */
  ghost predicate LabelState(g: Adjacency, marked: seq<bool>, id: seq<int>, rs: seq<int>, stack: seq<int>)
  {
    Labels(g, marked, id, rs)
    && (forall k :: 0 <= k < |stack| ==> 0 <= stack[k] < |g| && marked[stack[k]])
    && (forall x, i :: 0 <= x < |g| && marked[x] && x !in stack && 0 <= i < |g[x]| ==>
          0 <= g[x][i] < |g| && marked[g[x][i]])
  }

  /** Between m0/i0 and m/i no vertex was unmarked and no id of a marked
      vertex changed. */
  ghost predicate Kept(m0: seq<bool>, i0: seq<int>, m: seq<bool>, i: seq<int>)
  {
    |m0| == |m| && |i0| == |i| && |m0| == |i0|
    && forall x :: 0 <= x < |m0| && m0[x] ==> m[x] && i[x] == i0[x]
  }

  lemma KeptTrans(m0: seq<bool>, i0: seq<int>, m1: seq<bool>, i1: seq<int>, m2: seq<bool>, i2: seq<int>)
    requires Kept(m0, i0, m1, i1) && Kept(m1, i1, m2, i2)
    ensures Kept(m0, i0, m2, i2)
  {
  }

  /** visit(v) marks v and gives it the current root's number. */
  lemma LabelPush(g: Adjacency, marked: seq<bool>, id: seq<int>, rs: seq<int>, stack: seq<int>, v: int)
    requires LabelState(g, marked, id, rs, stack) && |rs| > 0
    requires 0 <= v < |g| && !marked[v] && Reachable(g, rs[|rs| - 1], v)
    ensures LabelState(g, marked[v := true], id[v := |rs| - 1], rs, stack + [v])
    ensures Kept(marked, id, marked[v := true], id[v := |rs| - 1])
    ensures Unvisited(marked[v := true]) < Unvisited(marked)
  {
    UnvisitedMark(marked, v);
    var m, d := marked[v := true], id[v := |rs| - 1];
    forall x, i | 0 <= x < |g| && m[x] && x !in stack + [v] && 0 <= i < |g[x]|
      ensures 0 <= g[x][i] < |g| && m[g[x][i]]
    {
      assert marked[x];
    }
    forall x | 0 <= x < |g| && m[x] ensures 0 <= d[x] < |rs| && Reachable(g, rs[d[x]], x) {
      if x != v {
        assert marked[x];
      }
    }
  }

  /** The loop of visit(v) after its first i successors. */
  ghost predicate Labelling(g: Adjacency, marked: seq<bool>, id: seq<int>, rs: seq<int>, stack: seq<int>, v: int, i: int,
                            entry: seq<bool>, ids: seq<int>)
  {
    LabelState(g, marked, id, rs, stack + [v]) && |rs| > 0 && marked[rs[|rs| - 1]]
    && 0 <= v < |g| && marked[v] && Reachable(g, rs[|rs| - 1], v) && 0 <= i <= |g[v]|
    && (forall j :: 0 <= j < i ==> 0 <= g[v][j] < |g| && marked[g[v][j]])
    && Kept(entry, ids, marked, id) && Unvisited(marked) <= Unvisited(entry)
  }

  /** What a nested visit of the i-th successor needs. */
  lemma LabellingDescend(g: Adjacency, marked: seq<bool>, id: seq<int>, rs: seq<int>, stack: seq<int>, v: int, i: int,
                         entry: seq<bool>, ids: seq<int>)
    requires WellFormed(g) && Labelling(g, marked, id, rs, stack, v, i, entry, ids) && i < |g[v]|
    ensures Reachable(g, rs[|rs| - 1], g[v][i])
  {
    ReachStep(g, rs[|rs| - 1], v, g[v][i]);
  }

  /** The i-th successor is handled, by a nested visit or because it was marked. */
  lemma LabellingStep(g: Adjacency, marked: seq<bool>, id: seq<int>, rs: seq<int>, stack: seq<int>, v: int, i: int,
                      entry: seq<bool>, ids: seq<int>, marked': seq<bool>, id': seq<int>)
    requires Labelling(g, marked, id, rs, stack, v, i, entry, ids) && i < |g[v]|
    requires LabelState(g, marked', id', rs, stack + [v]) && Kept(marked, id, marked', id')
    requires 0 <= g[v][i] < |g| && marked'[g[v][i]]
    ensures Labelling(g, marked', id', rs, stack, v, i + 1, entry, ids)
  {
    KeptTrans(entry, ids, marked, id, marked', id');
    UnvisitedMonotone(marked, marked');
  }

  /** visit(v) is over: v leaves the stack with all its successors marked. */
  lemma LabelPop(g: Adjacency, marked: seq<bool>, id: seq<int>, rs: seq<int>, stack: seq<int>, v: int)
    requires 0 <= v < |g| && Labelling(g, marked, id, rs, stack, v, |g[v]|, marked, id)
    ensures LabelState(g, marked, id, rs, stack)
  {
    assert forall k :: 0 <= k < |stack| ==> (stack + [v])[k] == stack[k];
    forall x, i | 0 <= x < |g| && marked[x] && x !in stack && 0 <= i < |g[x]|
      ensures 0 <= g[x][i] < |g| && marked[g[x][i]]
    {
      if x != v {
        assert x !in stack + [v];
      }
    }
  }

  /** The recursive visit of BuildCC and the dfs of BuildSCC: marks v,
      labels it with count and visits every unmarked successor. Labels of
      vertices marked before the call stay as they were. */
  method LabelVisit(g: Adjacency, v: int, marked: array<bool>, id: array<int>, count: int,
                    ghost rs: seq<int>, ghost stack: seq<int>)
    requires WellFormed(g) && marked.Length == |g| && id.Length == |g|
    requires LabelState(g, marked[..], id[..], rs, stack) && 0 <= count == |rs| - 1
    requires 0 <= v < |g| && !marked[v] && Reachable(g, rs[count], v)
    requires v == rs[count] || marked[rs[count]]
    modifies marked, id
    decreases Unvisited(marked[..])
    ensures LabelState(g, marked[..], id[..], rs, stack) && marked[v]
    ensures Kept(old(marked[..]), old(id[..]), marked[..], id[..])
  {
    ghost var m0, i0 := marked[..], id[..];
    LabelPush(g, m0, i0, rs, stack, v);
    marked[v] := true;
    id[v] := count;
    assert marked[..] == m0[v := true];
    assert id[..] == i0[v := count];
    ghost var entry, ids := marked[..], id[..];
    var i := 0;
    while i < |g[v]|
      invariant Labelling(g, marked[..], id[..], rs, stack, v, i, entry, ids)
    {
      var adj := g[v][i];
      if !marked[adj] {
        ghost var m, d := marked[..], id[..];
        LabellingDescend(g, m, d, rs, stack, v, i, entry, ids);
        LabelVisit(g, adj, marked, id, count, rs, stack + [v]);
        LabellingStep(g, m, d, rs, stack, v, i, entry, ids, marked[..], id[..]);
      } else {
        LabellingStep(g, marked[..], id[..], rs, stack, v, i, entry, ids, marked[..], id[..]);
      }
      i := i + 1;
    }
    LabelPop(g, marked[..], id[..], rs, stack, v);
    KeptTrans(m0, i0, entry, ids, marked[..], id[..]);
  }

  /** Everything a finished root reaches is marked and labelled no higher
      than that root. */
  ghost predicate Finished(g: Adjacency, marked: seq<bool>, id: seq<int>, roots: seq<int>)
  {
    |marked| == |g| && Below(g, id, roots)
    && forall k, x {:trigger Reachable(g, roots[k], x)} :: 0 <= k < |roots| && Reachable(g, roots[k], x) ==> 0 <= x < |g| && marked[x]
  }

  /** A search from r that leaves the marked set closed finishes r. */
  lemma FinishedRoot(g: Adjacency, marked: seq<bool>, id: seq<int>, roots: seq<int>, marked': seq<bool>, id': seq<int>, r: int)
    requires Finished(g, marked, id, roots) && Kept(marked, id, marked', id') && Closed(g, marked')
    requires 0 <= r < |g| && marked'[r] && forall x :: 0 <= x < |g| && marked'[x] ==> id'[x] <= |roots|
    ensures Finished(g, marked', id', roots + [r])
  {
    var rs := roots + [r];
    forall k, x | 0 <= k < |rs| && Reachable(g, rs[k], x) ensures 0 <= x < |g| && marked'[x] {
      if k < |roots| {
        assert rs[k] == roots[k];
      } else {
        ClosedReach(g, marked', r, x);
      }
    }
    forall k, x | 0 <= k < |rs| && Reachable(g, rs[k], x) ensures 0 <= x < |g| && id'[x] <= k {
      if k < |roots| {
        assert rs[k] == roots[k];
        assert marked[x] && id[x] <= k;
      } else {
        ClosedReach(g, marked', r, x);
      }
    }
  }

  /** The outer loop before order[p]: the roots so far, found at the
      increasing positions pos of order, each finished with everything it
      reaches marked and labelled no higher than itself. */
  ghost predicate Scanning(g: Adjacency, order: seq<int>, marked: seq<bool>, id: seq<int>, roots: seq<int>, pos: seq<int>, p: int)
  {
    IsOrdering(order, |g|)
    && LabelState(g, marked, id, roots, []) && (forall k :: 0 <= k < |roots| ==> marked[roots[k]])
    && Finished(g, marked, id, roots)
    && 0 <= p <= |order| && (forall q :: 0 <= q < p ==> marked[order[q]])
    && |pos| == |roots| && |roots| <= p
    && (forall k :: 0 <= k < |pos| ==> 0 <= pos[k] < p && order[pos[k]] == roots[k])
    && (forall j, k :: 0 <= j < k < |pos| ==> pos[j] < pos[k])
    && (p > 0 ==> |pos| > 0 && pos[0] == 0)
    && PassedOver(order, id, pos, p)
  }

  /** Each of the first p vertices of order not picked has the id of a
      root picked before it. */
  ghost predicate PassedOver(order: seq<int>, id: seq<int>, pos: seq<int>, p: int)
  {
    forall q :: 0 <= q < p && q !in pos ==> LabelledEarlier(order, id, pos, q)
  }

  ghost predicate LabelledEarlier(order: seq<int>, id: seq<int>, pos: seq<int>, q: int)
  {
    0 <= q < |order| && 0 <= order[q] < |id| && 0 <= id[order[q]] < |pos| && pos[id[order[q]]] < q
  }

  /** An unmarked order[p] becomes the next root. */
  lemma ScanningRoot(g: Adjacency, order: seq<int>, marked: seq<bool>, id: seq<int>, roots: seq<int>, pos: seq<int>, p: int)
    requires Scanning(g, order, marked, id, roots, pos, p) && p < |order| && !marked[order[p]]
    ensures LabelState(g, marked, id, roots + [order[p]], [])
    ensures Reachable(g, (roots + [order[p]])[|roots|], order[p])
  {
    var rs := roots + [order[p]];
    ReachSelf(g, order[p]);
    forall x | 0 <= x < |g| && marked[x] ensures 0 <= id[x] < |rs| && Reachable(g, rs[id[x]], x) {
      assert rs[id[x]] == roots[id[x]];
    }
    forall k | 0 <= k < |rs| && marked[rs[k]] ensures id[rs[k]] == k {
      assert k < |roots|;
    }
  }

  /** The search from the new root is over. */
  lemma ScanningVisit(g: Adjacency, order: seq<int>, marked: seq<bool>, id: seq<int>, roots: seq<int>, pos: seq<int>, p: int,
                      marked': seq<bool>, id': seq<int>)
    requires Scanning(g, order, marked, id, roots, pos, p) && p < |order| && !marked[order[p]]
    requires LabelState(g, marked', id', roots + [order[p]], []) && marked'[order[p]]
    requires Kept(marked, id, marked', id')
    ensures Scanning(g, order, marked', id', roots + [order[p]], pos + [p], p + 1)
  {
    assert Closed(g, marked');
    FinishedRoot(g, marked, id, roots, marked', id', order[p]);
    PassedOverRoot(order, marked, id, pos, p, marked', id');
  }

  /** Picking order[p] keeps the ids of the vertices passed over. */
  lemma PassedOverRoot(order: seq<int>, marked: seq<bool>, id: seq<int>, pos: seq<int>, p: int,
                       marked': seq<bool>, id': seq<int>)
    requires PassedOver(order, id, pos, p) && Kept(marked, id, marked', id')
    requires forall q :: 0 <= q < p && q !in pos ==> marked[order[q]]
    ensures PassedOver(order, id', pos + [p], p + 1)
  {
    forall q | 0 <= q < p + 1 && q !in pos + [p]
      ensures LabelledEarlier(order, id', pos + [p], q)
    {
      assert q !in pos && id'[order[q]] == id[order[q]];
    }
  }

  /** A marked order[p] is passed over. */
  lemma ScanningSkip(g: Adjacency, order: seq<int>, marked: seq<bool>, id: seq<int>, roots: seq<int>, pos: seq<int>, p: int)
    requires Scanning(g, order, marked, id, roots, pos, p) && p < |order| && marked[order[p]]
    ensures Scanning(g, order, marked, id, roots, pos, p + 1)
  {
    assert forall q :: 0 <= q < p + 1 ==> marked[order[q]];
  }

  /** Before the first vertex nothing is marked and there is no root. */
  lemma ScanningStart(g: Adjacency, order: seq<int>, marked: seq<bool>, id: seq<int>)
    requires IsOrdering(order, |g|) && |marked| == |g| && |id| == |g|
    requires forall x :: 0 <= x < |g| ==> !marked[x]
    ensures Scanning(g, order, marked, id, [], [], 0)
  {
  }

  /** After the last vertex every vertex is labelled, and the roots are
      what the scan of order picks. */
  lemma ScanningDone(g: Adjacency, order: seq<int>, marked: seq<bool>, id: seq<int>, roots: seq<int>, pos: seq<int>)
    requires Scanning(g, order, marked, id, roots, pos, |order|)
    ensures Labelled(g, id, roots) && PickedInOrder(g, order, roots, pos) && |roots| <= |g|
    ensures |g| > 0 ==> |roots| > 0 && roots[0] == order[0]
  {
    forall x | 0 <= x < |g| ensures marked[x] {
      assert x in order;
      var q :| 0 <= q < |order| && order[q] == x;
    }
    RootsApart(g, id, roots);
    forall q | 0 <= q < |order| && q !in pos ensures ReachedEarlier(g, order, roots, pos, q) {
      assert LabelledEarlier(order, id, pos, q);
      var k := id[order[q]];
      assert Reachable(g, roots[k], order[q]);
    }
  }

  /** roots are the vertices a scan of order picks, found at the
      increasing positions pos: no root reaches a later one, and every
      vertex of order not picked is reached by a root picked before it. */
  ghost predicate PickedInOrder(g: Adjacency, order: seq<int>, roots: seq<int>, pos: seq<int>)
  {
    |pos| == |roots|
    && (forall k :: 0 <= k < |pos| ==> 0 <= pos[k] < |order| && order[pos[k]] == roots[k])
    && (forall j, k :: 0 <= j < k < |pos| ==> pos[j] < pos[k])
    && (forall j, k :: 0 <= j < k < |roots| ==> !Reachable(g, roots[j], roots[k]))
    && (forall q :: 0 <= q < |order| && q !in pos ==> ReachedEarlier(g, order, roots, pos, q))
  }

  /** order[q] is reached by a root picked before position q. */
  ghost predicate ReachedEarlier(g: Adjacency, order: seq<int>, roots: seq<int>, pos: seq<int>, q: int)
    requires 0 <= q < |order|
  {
    exists k :: 0 <= k < |pos| && k < |roots| && pos[k] < q && Reachable(g, roots[k], order[q])
  }

  /** Whatever one scan picks the other picks too: a vertex of order the
      other passed over is reached by a root it picked earlier, which both
      share, and so could not have been picked. */
  lemma {:induction false} PickedSame(g: Adjacency, order: seq<int>, roots: seq<int>, pos: seq<int>,
                                      roots': seq<int>, pos': seq<int>, q: nat)
    requires PickedInOrder(g, order, roots, pos) && PickedInOrder(g, order, roots', pos')
    ensures q in pos ==> q in pos'
    decreases q
  {
    if q in pos {
      var i :| 0 <= i < |pos| && pos[i] == q;
      forall k | 0 <= k < |pos'| && pos'[k] < q ensures !Reachable(g, roots'[k], order[q]) {
        PickedSame(g, order, roots', pos', roots, pos, pos'[k]);
        var j :| 0 <= j < |pos| && pos[j] == pos'[k];
        IncreasingBefore(pos, j, i);
        assert roots'[k] == roots[j];
      }
    }
  }

  /** In an increasing sequence a smaller element comes earlier. */
  lemma IncreasingBefore(s: seq<int>, j: int, i: int)
    requires forall a, b :: 0 <= a < b < |s| ==> s[a] < s[b]
    requires 0 <= j < |s| && 0 <= i < |s| && s[j] < s[i]
    ensures j < i
  {
  }

  /** Two increasing sequences with the same members are equal. */
  lemma {:induction false} IncreasingSame(s: seq<int>, t: seq<int>)
    requires forall j, k :: 0 <= j < k < |s| ==> s[j] < s[k]
    requires forall j, k :: 0 <= j < k < |t| ==> t[j] < t[k]
    requires forall x :: x in s <==> x in t
    ensures s == t
  {
    assert s != [] ==> s[0] in s;
    assert t != [] ==> t[0] in t;
    if s != [] && t != [] {
      assert s[0] == t[0] by {
        assert s[0] in t && t[0] in s;
      }
      forall x ensures x in s[1..] <==> x in t[1..] {
        assert x in s[1..] <==> x in s && x != s[0];
        assert x in t[1..] <==> x in t && x != t[0];
      }
      IncreasingSame(s[1..], t[1..]);
      assert s == [s[0]] + s[1..] && t == [t[0]] + t[1..];
    }
  }

  /** A scan of order on g has one outcome: the roots and their positions
      are determined by g and order alone. */
  lemma PickedUnique(g: Adjacency, order: seq<int>, roots: seq<int>, pos: seq<int>, roots': seq<int>, pos': seq<int>)
    requires PickedInOrder(g, order, roots, pos) && PickedInOrder(g, order, roots', pos')
    ensures pos == pos' && roots == roots'
  {
    forall q: nat ensures q in pos <==> q in pos' {
      PickedSame(g, order, roots, pos, roots', pos', q);
      PickedSame(g, order, roots', pos', roots, pos, q);
    }
    assert forall x :: x in pos ==> x >= 0;
    assert forall x :: x in pos' ==> x >= 0;
    IncreasingSame(pos, pos');
    assert forall k :: 0 <= k < |roots| ==> roots[k] == order[pos[k]] == roots'[k];
  }

  /** One root of the scan: the search from the unmarked order[p]. */
  method ScanRoot(g: Adjacency, order: seq<int>, marked: array<bool>, id: array<int>,
                  count: int, ghost roots: seq<int>, ghost pos: seq<int>, p: int)
    requires WellFormed(g) && marked.Length == |g| && id.Length == |g| && count == |roots|
    requires Scanning(g, order, marked[..], id[..], roots, pos, p) && p < |order| && !marked[order[p]]
    modifies marked, id
    ensures Scanning(g, order, marked[..], id[..], roots + [order[p]], pos + [p], p + 1)
  {
    ghost var m, d := marked[..], id[..];
    ScanningRoot(g, order, m, d, roots, pos, p);
    LabelVisit(g, order[p], marked, id, count, roots + [order[p]], []);
    ScanningVisit(g, order, m, d, roots, pos, p, marked[..], id[..]);
  }

  /** The labelling both builders share: visit every vertex of order that
      is still unmarked, counting one component per visit. */
  method LabelInOrder(g: Adjacency, order: seq<int>) returns (id: array<int>, count: int, ghost roots: seq<int>, ghost pos: seq<int>)
    requires WellFormed(g) && IsOrdering(order, |g|)
    ensures fresh(id) && Labelled(g, id[..], roots) && count == |roots| && count <= |g|
    ensures PickedInOrder(g, order, roots, pos)
    ensures |g| > 0 ==> |roots| > 0 && roots[0] == order[0]
  {
    id := new int[|g|];
    var marked := new bool[|g|](_ => false);
    count := 0;
    roots, pos := [], [];
    var p := 0;
    ScanningStart(g, order, marked[..], id[..]);
    while p < |order|
      invariant marked.Length == |g| && id.Length == |g| && count == |roots|
      invariant Scanning(g, order, marked[..], id[..], roots, pos, p)
    {
      var v := order[p];
      if !marked[v] {
        ScanRoot(g, order, marked, id, count, roots, pos, p);
        roots, pos := roots + [v], pos + [p];
        count := count + 1;
      } else {
        ScanningSkip(g, order, marked[..], id[..], roots, pos, p);
      }
      p := p + 1;
    }
    ScanningDone(g, order, marked[..], id[..], roots, pos);
  }

  /** Mutually reachable vertices share their id: each root's search
      labels everything it reaches no higher than itself. */
  lemma MutualSameId(g: Adjacency, id: seq<int>, roots: seq<int>, x: int, y: int)
    requires Labelled(g, id, roots) && 0 <= x < |g| && 0 <= y < |g|
    requires Reachable(g, x, y) && Reachable(g, y, x)
    ensures id[x] == id[y]
  {
    ReachTrans(g, roots[id[x]], x, y);
    ReachTrans(g, roots[id[y]], y, x);
  }

  /** In an undirected graph the ids are exactly the connected components. */
  lemma SymmetricSameId(g: Adjacency, id: seq<int>, roots: seq<int>, x: int, y: int)
    requires WellFormed(g) && Symmetric(g) && Labelled(g, id, roots) && 0 <= x < |g| && 0 <= y < |g|
    ensures id[x] == id[y] <==> Reachable(g, x, y)
  {
    if id[x] == id[y] {
      ReachSymmetric(g, roots[id[x]], x);
      ReachTrans(g, x, roots[id[x]], y);
    }
    if Reachable(g, x, y) {
      ReachSymmetric(g, x, y);
      MutualSameId(g, id, roots, x, y);
    }
  }

  /** The id of a vertex is the first root that reaches it. */
  lemma IdIsFirstRoot(g: Adjacency, id: seq<int>, roots: seq<int>, x: int)
    requires Labelled(g, id, roots) && 0 <= x < |g|
    ensures 0 <= id[x] < |roots| && Reachable(g, roots[id[x]], x)
    ensures forall k :: 0 <= k < |roots| && Reachable(g, roots[k], x) ==> id[x] <= k
  {
  }

  /** No root reaches a later root. */
  lemma RootsApart(g: Adjacency, id: seq<int>, roots: seq<int>)
    requires Labelled(g, id, roots)
    ensures forall j, k :: 0 <= j < k < |roots| ==> !Reachable(g, roots[j], roots[k])
  {
  }

  /** The value BuildCC returns: the id of every vertex and the number of
      components, with (as ghosts) the graph and the search roots. */
  class ConnectedComponents {
    const id: array<int>
    const count: int
    ghost const g: Adjacency
    ghost const roots: seq<int>

    /** A labelling by the roots a scan in ascending vertex order picks
        (in that order a vertex sits at its own position), the first being
        vertex 0: by PickedUnique, g alone fixes the roots and the ids. */
    ghost predicate Valid()
      reads this, id
    {
      Labelled(g, id[..], roots) && count == |roots| && count <= |g|
      && PickedInOrder(g, Ascending(|g|), roots, roots)
      && (|g| > 0 ==> |roots| > 0 && roots[0] == 0)
    }

    constructor (id: array<int>, count: int, ghost g: Adjacency, ghost roots: seq<int>)
      ensures this.id == id && this.count == count && this.g == g && this.roots == roots
    {
      this.id, this.count, this.g, this.roots := id, count, g, roots;
    }

    /** Connected(v, w): in an undirected graph, exactly when w is
        reachable from v; in any graph, whenever v and w reach each other. */
    function Connected(v: int, w: int): (r: bool)
      requires Valid() && 0 <= v < |g| && 0 <= w < |g|
      reads this, id
      ensures Reachable(g, v, w) && Reachable(g, w, v) ==> r
      ensures WellFormed(g) && Symmetric(g) ==> (r <==> Reachable(g, v, w))
    {
      ComponentMeaning(g, id[..], roots, v, w);
      id[v] == id[w]
    }

    /** Count(): one component per root, and no root reaches a later one
        (every vertex is reached from the root Id gives it). */
    function Count(): (r: int)
      requires Valid()
      reads this, id
      ensures r == |roots| && 0 <= r <= |g| && (|g| > 0 ==> r > 0)
      ensures forall j, k :: 0 <= j < k < r ==> !Reachable(g, roots[j], roots[k])
    {
      RootsApart(g, id[..], roots);
      count
    }

    /** ID(v): the number of the first root that reaches v; vertex 0 is in
        component 0. */
    function Id(v: int): (r: int)
      requires Valid() && 0 <= v < |g|
      reads this, id
      ensures 0 <= r < Count() && Reachable(g, roots[r], v)
      ensures forall k :: 0 <= k < |roots| && Reachable(g, roots[k], v) ==> r <= k
      ensures v == 0 ==> r == 0
    {
      IdIsFirstRoot(g, id[..], roots, v);
      id[v]
    }
  }

  /** Both meanings of a shared id, for one pair of vertices. */
  lemma ComponentMeaning(g: Adjacency, id: seq<int>, roots: seq<int>, v: int, w: int)
    requires Labelled(g, id, roots) && 0 <= v < |g| && 0 <= w < |g|
    ensures Reachable(g, v, w) && Reachable(g, w, v) ==> id[v] == id[w]
    ensures WellFormed(g) && Symmetric(g) ==> (id[v] == id[w] <==> Reachable(g, v, w))
  {
    if Reachable(g, v, w) && Reachable(g, w, v) {
      MutualSameId(g, id, roots, v, w);
    }
    if WellFormed(g) && Symmetric(g) {
      SymmetricSameId(g, id, roots, v, w);
    }
  }

  /** The vertices 0, 1, ..., n-1 in ascending order. */
  function Ascending(n: nat): (s: seq<int>)
    ensures IsOrdering(s, n) && forall k :: 0 <= k < n ==> s[k] == k
  {
    var s := seq(n, k => k);
    forall x | 0 <= x < n ensures x in s {
      assert s[x] == x;
    }
    s
  }

  /** BuildCC: a search from every still unmarked vertex in ascending order. */
  method BuildCC(g: Adjacency) returns (cc: ConnectedComponents)
    requires WellFormed(g)
    ensures cc.Valid() && cc.g == g
  {
    var order := Ascending(|g|);
    var id, count, roots, pos := LabelInOrder(g, order);
    assert pos == roots by {
      assert forall k :: 0 <= k < |roots| ==> roots[k] == order[pos[k]] == pos[k];
    }
    cc := new ConnectedComponents(id, count, g, roots);
  }

  /** The value BuildSCC returns; the same shape as ConnectedComponents. */
  class StrongComponents {
    const id: array<int>
    const count: int
    ghost const g: Adjacency
    ghost const roots: seq<int>
    ghost const order: seq<int>
    ghost const pos: seq<int>

    /** A labelling by the roots a scan of 'order' picks, at the positions
        pos of order: by PickedUnique, g and order fix the roots and the
        ids. */
    ghost predicate Valid()
      reads this, id
    {
      Labelled(g, id[..], roots) && count == |roots| && count <= |g|
      && IsOrdering(order, |g|) && PickedInOrder(g, order, roots, pos)
      && (|g| > 0 ==> |roots| > 0 && roots[0] == order[0])
    }

    constructor (id: array<int>, count: int, ghost g: Adjacency, ghost roots: seq<int>, ghost order: seq<int>, ghost pos: seq<int>)
      ensures this.id == id && this.count == count && this.g == g && this.roots == roots
      ensures this.order == order && this.pos == pos
    {
      this.id, this.count, this.g, this.roots, this.order, this.pos := id, count, g, roots, order, pos;
    }

    /** StronglyConnected(v, w) holds whenever v and w reach each other
        (the converse fails; see SccMergesOneWay). */
    function StronglyConnected(v: int, w: int): (r: bool)
      requires Valid() && 0 <= v < |g| && 0 <= w < |g|
      reads this, id
      ensures Reachable(g, v, w) && Reachable(g, w, v) ==> r
    {
      ComponentMeaning(g, id[..], roots, v, w);
      id[v] == id[w]
    }

    function Count(): (r: int)
      requires Valid()
      reads this, id
      ensures r == |roots| && 0 <= r <= |g| && (|g| > 0 ==> r > 0)
      ensures forall j, k :: 0 <= j < k < r ==> !Reachable(g, roots[j], roots[k])
    {
      RootsApart(g, id[..], roots);
      count
    }

    function Id(v: int): (r: int)
      requires Valid() && 0 <= v < |g|
      reads this, id
      ensures 0 <= r < Count() && Reachable(g, roots[r], v)
      ensures forall k :: 0 <= k < |roots| && Reachable(g, roots[k], v) ==> r <= k
    {
      IdIsFirstRoot(g, id[..], roots, v);
      id[v]
    }
  }

  /** BuildSCC: the labelling search taken in the reverse postorder of
      BuildDFO on the same digraph (not on its reverse). When vertex 0
      reaches every vertex, 0 heads that order and everything gets id 0. */
  method BuildSCC(g: Adjacency) returns (scc: StrongComponents)
    requires WellFormed(g)
    ensures scc.Valid() && scc.g == g
    ensures (|g| > 0 && forall x :: 0 <= x < |g| ==> Reachable(g, 0, x)) ==>
              forall x :: 0 <= x < |g| ==> scc.id[x] == 0
  {
    var dfo := BuildDFO(g);
    var id, count, roots, pos := LabelInOrder(g, dfo.reversePost);
    scc := new StrongComponents(id, count, g, roots, dfo.reversePost, pos);
    if |g| > 0 && forall x :: 0 <= x < |g| ==> Reachable(g, 0, x) {
      forall x | 0 <= x < |g| ensures id[x] == 0 {
        assert Below(g, id[..], roots) && Reachable(g, roots[0], x);
      }
    }
  }

  /** In the digraph 0 -> 1, vertex 1 does not reach 0, yet BuildSCC puts
      0 and 1 into one strong component. */
  method SccMergesOneWay() returns (merged: bool)
    ensures merged && !Reachable([[1], []], 1, 0)
  {
    var g: Adjacency := [[1], []];
    ReachSelf(g, 0);
    ReachEdge(g, 0, 1);
    var scc := BuildSCC(g);
    merged := scc.StronglyConnected(0, 1);
    if Reachable(g, 1, 0) {
      ClosedReach(g, [false, true], 1, 0);
    }
  }
}
