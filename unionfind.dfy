// Weighted quick-union: a forest over the sites 0 .. n - 1 held in a parent
// array id, with the tree sizes in sz and the number of trees in count.
module UnionFind {

  /** The sites whose recorded root is r. */
  ghost function Members(root: seq<int>, r: int): set<int>
  {
    set x | 0 <= x < |root| && root[x] == r
  }

  /** The roots recorded for the sites: the distinct answers of Find. */
  ghost function Found(root: seq<int>): set<int>
  {
    set x | 0 <= x < |root| :: root[x]
  }

  /** The sites that are their own parent: the roots of the forest. */
  ghost function RootSet(id: seq<int>): set<int>
  {
    set x | 0 <= x < |id| && id[x] == x
  }

  /** The root array after the tree of i is hung under j. */
  ghost function Relabel(root: seq<int>, i: int, j: int): (r: seq<int>)
    ensures |r| == |root|
    ensures forall x :: 0 <= x < |root| ==> r[x] == (if root[x] == i then j else root[x])
  {
    seq(|root|, x requires 0 <= x < |root| => if root[x] == i then j else root[x])
  }

  /** Hanging the tree of i under j merges their member sets and leaves the
      other trees alone. */
  lemma MembersRelabel(root: seq<int>, i: int, j: int, r: int)
    requires i != j
    ensures Members(Relabel(root, i, j), j) == Members(root, j) + Members(root, i)
    ensures r != i && r != j ==> Members(Relabel(root, i, j), r) == Members(root, r)
    ensures |Members(Relabel(root, i, j), j)| == |Members(root, j)| + |Members(root, i)|
  {
    assert Members(root, j) * Members(root, i) == {};
  }

  /** Relabelling the root a of p's tree or b of q's tree to the other joins
      exactly those two classes of sites. */
  lemma RelabelJoins(root: seq<int>, p: int, q: int, i: int, j: int)
    requires 0 <= p < |root| && 0 <= q < |root|
    requires (i == root[p] && j == root[q]) || (i == root[q] && j == root[p])
    ensures forall x, y :: 0 <= x < |root| && 0 <= y < |root| ==>
      (Relabel(root, i, j)[x] == Relabel(root, i, j)[y] <==>
        root[x] == root[y]
        || (root[x] == root[p] && root[y] == root[q])
        || (root[x] == root[q] && root[y] == root[p]))
  {
  }

  /** A root that gets a parent leaves the root set, and nothing else does. */
  lemma RootSetLink(id: seq<int>, i: int, j: int)
    requires 0 <= i < |id| && id[i] == i && i != j
    ensures RootSet(id[i := j]) == RootSet(id) - {i}
    ensures |RootSet(id[i := j])| == |RootSet(id)| - 1
  {
    assert RootSet(id[i := j]) == RootSet(id) - {i};
  }

  /** Every parent is a site. */
  ghost predicate Parents(id: seq<int>)
  {
    forall x :: 0 <= x < |id| ==> 0 <= id[x] < |id|
  }

  /** Every site's recorded root is a root, a root is its own root, and a
      site shares its parent's root. */
  ghost predicate Rooted(id: seq<int>, root: seq<int>)
    requires Parents(id)
  {
    |root| == |id|
    && (forall x :: 0 <= x < |id| ==> 0 <= root[x] < |id|)
    && (forall x {:trigger id[root[x]]} :: 0 <= x < |id| ==> id[root[x]] == root[x])
    && (forall x :: 0 <= x < |id| && id[x] == x ==> root[x] == x)
    && (forall x {:trigger id[x]} :: 0 <= x < |id| && id[x] != x ==> root[x] == root[id[x]])
  }

  /** The depth is 0 at a root and grows by one from parent to child: the
      measure that makes Find terminate. */
  ghost predicate Layered(id: seq<int>, depth: seq<nat>)
    requires Parents(id)
  {
    |depth| == |id|
    && (forall x :: 0 <= x < |id| && id[x] == x ==> depth[x] == 0)
    && (forall x {:trigger id[x]} :: 0 <= x < |id| && id[x] != x ==> depth[x] == depth[id[x]] + 1)
  }

  /** Every size is positive and a site's size is smaller than its parent's. */
  ghost predicate Weighted(id: seq<int>, sz: seq<int>)
    requires Parents(id)
  {
    |sz| == |id|
    && (forall x :: 0 <= x < |id| ==> sz[x] >= 1)
    && (forall x {:trigger id[x]} :: 0 <= x < |id| && id[x] != x ==> sz[x] < sz[id[x]])
  }

  /** A root's size is the number of sites in its tree. */
  ghost predicate Counted(id: seq<int>, sz: seq<int>, root: seq<int>)
    requires |sz| == |id|
  {
    forall r {:trigger Members(root, r)} :: 0 <= r < |id| && id[r] == r ==> sz[r] == |Members(root, r)|
  }

  /** The ghost root and depth arrays and the size array describe the forest
      of id. */
  ghost predicate Forest(id: seq<int>, sz: seq<int>, root: seq<int>, depth: seq<nat>)
  {
    Parents(id) && Rooted(id, root) && Layered(id, depth) && Weighted(id, sz) && Counted(id, sz, root)
  }

  /** The depth array after the tree of i is hung one level lower. */
  ghost function Deepen(root: seq<int>, depth: seq<nat>, i: int): (r: seq<nat>)
    requires |depth| == |root|
    ensures |r| == |root|
    ensures forall x :: 0 <= x < |root| ==> r[x] == (if root[x] == i then depth[x] + 1 else depth[x])
  {
    seq(|root|, x requires 0 <= x < |root| => if root[x] == i then depth[x] + 1 else depth[x])
  }

  lemma RootedLink(id: seq<int>, root: seq<int>, i: int, j: int)
    requires Parents(id) && Rooted(id, root)
    requires 0 <= i < |id| && 0 <= j < |id| && i != j && id[i] == i && id[j] == j
    ensures Rooted(id[i := j], Relabel(root, i, j))
  {
    var id', root' := id[i := j], Relabel(root, i, j);
    forall x | 0 <= x < |id| && id'[x] != x ensures root'[x] == root'[id'[x]] {
      if x != i {
        assert id'[x] == id[x];
      }
    }
  }

  lemma LayeredLink(id: seq<int>, root: seq<int>, depth: seq<nat>, i: int, j: int)
    requires Parents(id) && Rooted(id, root) && Layered(id, depth)
    requires 0 <= i < |id| && 0 <= j < |id| && i != j && id[i] == i && id[j] == j
    ensures Layered(id[i := j], Deepen(root, depth, i))
  {
    var id', depth' := id[i := j], Deepen(root, depth, i);
    forall x | 0 <= x < |id| && id'[x] == x ensures depth'[x] == 0 {
      assert id[x] == x && root[x] == x;
    }
    forall x | 0 <= x < |id| && id'[x] != x ensures depth'[x] == depth'[id'[x]] + 1 {
      if x != i {
        assert id'[x] == id[x];
      }
    }
  }

  lemma WeightedLink(id: seq<int>, sz: seq<int>, i: int, j: int)
    requires Parents(id) && Weighted(id, sz)
    requires 0 <= i < |id| && 0 <= j < |id| && i != j && id[i] == i && id[j] == j
    ensures Weighted(id[i := j], sz[j := sz[j] + sz[i]])
  {
    var id', sz' := id[i := j], sz[j := sz[j] + sz[i]];
    forall x | 0 <= x < |id| && id'[x] != x ensures sz'[x] < sz'[id'[x]] {
      if x != i {
        assert id'[x] == id[x] && x != j;
      }
    }
  }

  lemma CountedLink(id: seq<int>, sz: seq<int>, root: seq<int>, i: int, j: int)
    requires |sz| == |id| && |root| == |id| && Counted(id, sz, root)
    requires 0 <= i < |id| && 0 <= j < |id| && i != j && id[i] == i && id[j] == j
    ensures Counted(id[i := j], sz[j := sz[j] + sz[i]], Relabel(root, i, j))
  {
    var id', sz', root' := id[i := j], sz[j := sz[j] + sz[i]], Relabel(root, i, j);
    forall r | 0 <= r < |id| && id'[r] == r ensures sz'[r] == |Members(root', r)| {
      MembersRelabel(root, i, j, r);
    }
  }

  /** Hanging root i under root j keeps the forest a forest. */
  lemma ForestLink(id: seq<int>, sz: seq<int>, root: seq<int>, depth: seq<nat>, i: int, j: int)
    requires Forest(id, sz, root, depth)
    requires 0 <= i < |id| && 0 <= j < |id| && i != j && id[i] == i && id[j] == j
    ensures Forest(id[i := j], sz[j := sz[j] + sz[i]], Relabel(root, i, j), Deepen(root, depth, i))
  {
    RootedLink(id, root, i, j);
    LayeredLink(id, root, depth, i, j);
    WeightedLink(id, sz, i, j);
    CountedLink(id, sz, root, i, j);
  }

  /** The arrays after the weighted union of the distinct roots i and j: the
      root of the smaller tree (j's on a tie) is hung under the other root,
      whose size grows by the other's, and its sites take the other root. */
  ghost predicate Joined(id: seq<int>, sz: seq<int>, root: seq<int>,
                         id': seq<int>, sz': seq<int>, root': seq<int>, i: int, j: int)
    requires |id| == |sz| && 0 <= i < |sz| && 0 <= j < |sz|
  {
    var loser, winner := if sz[i] < sz[j] then i else j, if sz[i] < sz[j] then j else i;
    id' == id[loser := winner]
    && sz' == sz[winner := sz[winner] + sz[loser]]
    && root' == Relabel(root, loser, winner)
  }

  /** A weighted union of the roots of p and q relabels one class to the
      other: two sites share a root afterwards exactly when they shared one
      before or lie in the trees of p and q. */
  lemma JoinedKeeps(id: seq<int>, sz: seq<int>, root: seq<int>,
                    id': seq<int>, sz': seq<int>, root': seq<int>, p: int, q: int)
    requires |id| == |sz| == |root| && 0 <= p < |root| && 0 <= q < |root|
    requires 0 <= root[p] < |sz| && 0 <= root[q] < |sz|
    requires Joined(id, sz, root, id', sz', root', root[p], root[q])
    ensures |root'| == |root|
    ensures forall x, y :: 0 <= x < |root| && 0 <= y < |root| ==>
      (root'[x] == root'[y] <==>
        root[x] == root[y]
        || (root[x] == root[p] && root[y] == root[q])
        || (root[x] == root[q] && root[y] == root[p]))
  {
    var i, j := root[p], root[q];
    var loser, winner := if sz[i] < sz[j] then i else j, if sz[i] < sz[j] then j else i;
    RelabelJoins(root, p, q, loser, winner);
  }

  class UF {
    const n: nat
    const id: array<int>
    const sz: array<int>
    var count: int
    /** The root of every site, and its distance from the root. */
    ghost var root: seq<int>
    ghost var depth: seq<nat>

    ghost predicate Valid()
      reads this, id, sz
    {
      id.Length == n && sz.Length == n && id != sz
      && Forest(id[..], sz[..], root, depth)
      && count == |RootSet(id[..])|
    }

    /** BuildUF: n sites, each its own tree of size one. */
    constructor (size: int)
      requires size >= 0
      ensures Valid() && n == size && fresh(id) && fresh(sz)
      ensures count == size
      ensures forall x :: 0 <= x < size ==> id[x] == x && sz[x] == 1 && root[x] == x
    {
      var ids := new int[size];
      var sizes := new int[size];
      var i := 0;
      while i < size
        invariant 0 <= i <= size
        invariant forall x :: 0 <= x < i ==> ids[x] == x && sizes[x] == 1
      {
        ids[i] := i;
        sizes[i] := 1;
        i := i + 1;
      }
      n, id, sz, count := size, ids, sizes, size;
      root := seq(size, x => x);
      depth := seq(size, x => 0);
      new;
      RootSetIdentity(id[..]);
      forall r | 0 <= r < size ensures Members(root, r) == {r} {
      }
    }

    /** The root of p's tree, found by following parents. */
    method Find(p: int) returns (r: int)
      requires Valid() && 0 <= p < n
      ensures r == root[p]
      ensures 0 <= r < n && id[r] == r
    {
      r := p;
      while r != id[r]
        invariant 0 <= r < n && root[r] == root[p]
        decreases depth[r]
      {
        r := id[r];
      }
    }

    /** Joins the trees of p and q: the root of the smaller tree goes under
        the other root, q's root under p's on a tie, and there is one tree
        fewer. Sites already connected leave everything as it was. */
    method Union(p: int, q: int)
      requires Valid() && 0 <= p < n && 0 <= q < n
      modifies this, id, sz
      ensures Valid()
      ensures root[p] == root[q]
      ensures old(root[p]) == old(root[q]) ==>
        count == old(count) && id[..] == old(id[..]) && sz[..] == old(sz[..]) && root == old(root)
      ensures old(root[p]) != old(root[q]) ==>
        count == old(count) - 1
        && Joined(old(id[..]), old(sz[..]), old(root), id[..], sz[..], root, old(root[p]), old(root[q]))
    {
      var i := Find(p);
      var j := Find(q);
      if i == j {
        return;
      }
      Join(i, j);
    }

    /** Weighted union of two distinct roots: the root of the smaller tree
        goes under the other, j under i on a tie. */
    method Join(i: int, j: int)
      requires Valid() && 0 <= i < n && 0 <= j < n && i != j && id[i] == i && id[j] == j
      modifies this, id, sz
      ensures Valid()
      ensures count == old(count) - 1
      ensures Joined(old(id[..]), old(sz[..]), old(root), id[..], sz[..], root, i, j)
    {
      if sz[i] < sz[j] {
        Link(i, j);
      } else {
        Link(j, i);
      }
    }

    /** Hangs root i under root j, adds i's size to j's and counts one tree
        fewer. */
    method Link(i: int, j: int)
      requires Valid() && 0 <= i < n && 0 <= j < n && i != j && id[i] == i && id[j] == j
      modifies this, id, sz
      ensures id[..] == old(id[..])[i := j] && sz[..] == old(sz[..])[j := old(sz[j]) + old(sz[i])]
      ensures root == Relabel(old(root), i, j) && count == old(count) - 1
      ensures Valid()
    {
      ghost var ids, sizes, roots, depths := id[..], sz[..], root, depth;
      var grown := sz[j] + sz[i];
      id[i] := j;
      sz[j] := grown;
      assert id[..] == ids[i := j];
      assert sz[..] == sizes[j := grown];
      depth := Deepen(roots, depths, i);
      root := Relabel(roots, i, j);
      ForestLink(ids, sizes, roots, depths, i, j);
      RootSetLink(ids, i, j);
      count := count - 1;
    }

    /** Whether p and q have the same root. */
    method Connected(p: int, q: int) returns (r: bool)
      requires Valid() && 0 <= p < n && 0 <= q < n
      ensures r <==> root[p] == root[q]
    {
      var a := Find(p);
      var b := Find(q);
      r := a == b;
    }

    /** The number of trees. */
    function Count(): (r: int)
      reads this, id, sz
      requires Valid()
      ensures r == |RootSet(id[..])|
    {
      count
    }
  }

  /** When every site is its own parent there are as many trees as sites. */
  lemma {:induction false} RootSetIdentity(id: seq<int>)
    requires forall x :: 0 <= x < |id| ==> id[x] == x
    ensures |RootSet(id)| == |id|
  {
    if id != [] {
      var prefix := id[..|id| - 1];
      RootSetIdentity(prefix);
      assert RootSet(id) == RootSet(prefix) + {|id| - 1};
    }
  }

  /** The trees are exactly the distinct answers Find gives over all sites,
      so Count() is their number. */
  lemma CountIsDistinctRoots(uf: UF)
    requires uf.Valid()
    ensures uf.Count() == |Found(uf.root)|
  {
    var roots := Found(uf.root);
    assert roots == RootSet(uf.id[..]) by {
      forall r | r in RootSet(uf.id[..]) ensures r in roots {
        assert uf.root[r] == r;
      }
    }
  }

  /** A non-empty forest has a tree. */
  lemma SomeTree(uf: UF)
    requires uf.Valid() && uf.n > 0
    ensures uf.Count() >= 1
  {
    assert uf.root[0] in RootSet(uf.id[..]);
  }

  /** When all sites share one root there is a single tree. */
  lemma OneTree(uf: UF)
    requires uf.Valid() && uf.n > 0
    requires forall x :: 0 <= x < uf.n ==> uf.root[x] == uf.root[0]
    ensures uf.Count() == 1
  {
    CountIsDistinctRoots(uf);
    assert Found(uf.root) == {uf.root[0]};
  }
}
