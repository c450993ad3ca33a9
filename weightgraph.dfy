// The edge-weighted undirected store and its Edge value. Weights are
// integers here; the order they are compared in is the same.
module WeightGraphs {

  /** A weighted edge between from and to. */
  datatype Edge = Edge(weight: int, from: int, to: int)
  {
    /** Compares weights only: the ends play no part. */
    function Less(other: Edge): (r: bool)
      ensures r <==> Weight() < other.Weight()
    {
      weight < other.weight
    }

    /** One end of the edge; the other is what Other gives back for it. */
    function Either(): (r: int)
      ensures r == from && Other(r) == to
    {
      from
    }

    /** The end that is not v; from's side when v is neither end. */
    function Other(v: int): (r: int)
      ensures r == from || r == to
    {
      if from == v then to else from
    }

    /** The weight the edge was made with. */
    function Weight(): (r: int)
      ensures r == weight
    {
      weight
    }
  }

  /** NewEdge: Either() gives back v, Other(v) gives back w and Weight() the weight. */
  function NewEdge(v: int, w: int, weight: int): (r: Edge)
    ensures r.Either() == v && r.Other(v) == w && r.Weight() == weight
  {
    Edge(weight, v, w)
  }

  /** Other turns one end of an edge into the other, in both directions. */
  lemma OtherEnds(e: Edge)
    ensures e.Other(e.Either()) == e.to
    ensures e.Other(e.to) == e.from
    ensures e.Other(e.Other(e.from)) == e.from && e.Other(e.Other(e.to)) == e.to
  {
  }

  /** Less is a strict order: irreflexive, asymmetric and transitive. */
  lemma LessStrictOrder(a: Edge, b: Edge, c: Edge)
    ensures !a.Less(a)
    ensures a.Less(b) ==> !b.Less(a)
    ensures a.Less(b) && b.Less(c) ==> a.Less(c)
  {
  }

  /** The incidence lists after replaying the AddEdge calls: each call
      appends the edge at from and then at to, so a self-loop twice. */
  ghost function Incident(added: seq<Edge>, x: int): seq<Edge>
  {
    if added == [] then []
    else
      var e := added[|added| - 1];
      Incident(added[..|added| - 1], x) + (if e.from == x then [e] else []) + (if e.to == x then [e] else [])
  }

  /** The entries of list that Edges keeps while scanning vertex v. */
  function Kept(list: seq<Edge>, v: int): seq<Edge>
  {
    if list == [] then []
    else Kept(list[..|list| - 1], v) + (if list[|list| - 1].Other(v) > v then [list[|list| - 1]] else [])
  }

  lemma KeptStep(list: seq<Edge>, i: int, v: int)
    requires 0 <= i < |list|
    ensures Kept(list[..i + 1], v) == Kept(list[..i], v) + (if list[i].Other(v) > v then [list[i]] else [])
  {
    assert list[..i + 1][..i] == list[..i];
  }

  lemma {:induction false} KeptAppend(a: seq<Edge>, b: seq<Edge>, v: int)
    ensures Kept(a + b, v) == Kept(a, v) + Kept(b, v)
  {
    if b != [] {
      KeptAppend(a, b[..|b| - 1], v);
      assert (a + b)[..|a + b| - 1] == a + b[..|b| - 1];
    } else {
      assert a + b == a;
    }
  }

  /** e is not a self-loop and v is its smaller end. */
  predicate LowerEnd(e: Edge, v: int)
  {
    e.from != e.to && (if e.from < e.to then e.from else e.to) == v
  }

  /** The added edges whose smaller end is v, in the order they were added. */
  ghost function LowerAt(added: seq<Edge>, v: int): seq<Edge>
  {
    if added == [] then []
    else LowerAt(added[..|added| - 1], v) + (if LowerEnd(added[|added| - 1], v) then [added[|added| - 1]] else [])
  }

  /** The groups LowerAt(added, 0), ..., LowerAt(added, k - 1), one after the other. */
  ghost function Grouped(added: seq<Edge>, k: nat): seq<Edge>
  {
    if k == 0 then [] else Grouped(added, k - 1) + LowerAt(added, k - 1)
  }

  /** The added edges that are not self-loops, in the order they were added. */
  ghost function NonLoops(added: seq<Edge>): seq<Edge>
  {
    if added == [] then []
    else NonLoops(added[..|added| - 1]) + (if added[|added| - 1].from != added[|added| - 1].to then [added[|added| - 1]] else [])
  }

  /** Scanning the list of v keeps exactly the edges whose smaller end is v:
      the test Other(v) > v drops self-loops and the copy at the larger end. */
  lemma {:induction false} KeptIncident(added: seq<Edge>, v: int)
    ensures Kept(Incident(added, v), v) == LowerAt(added, v)
  {
    if added != [] {
      var prefix, e := added[..|added| - 1], added[|added| - 1];
      KeptIncident(prefix, v);
      var first := if e.from == v then [e] else [];
      var second := if e.to == v then [e] else [];
      KeptAppend(Incident(prefix, v) + first, second, v);
      KeptAppend(Incident(prefix, v), first, v);
      assert Kept(first, v) + Kept(second, v) == (if LowerEnd(e, v) then [e] else []) by {
        assert first != [] ==> Kept(first, v) == Kept([], v) + (if e.Other(v) > v then [e] else []);
        assert second != [] ==> Kept(second, v) == Kept([], v) + (if e.Other(v) > v then [e] else []);
      }
    }
  }

  /** e is not a self-loop and its smaller end is one of the vertices 0 .. k - 1. */
  predicate Joins(e: Edge, k: nat)
  {
    e.from != e.to && 0 <= (if e.from < e.to then e.from else e.to) < k
  }

  /** How often x occurs in s. */
  function Count(s: seq<Edge>, x: Edge): nat
  {
    if s == [] then 0 else Count(s[..|s| - 1], x) + (if s[|s| - 1] == x then 1 else 0)
  }

  lemma {:induction false} CountAppend(a: seq<Edge>, b: seq<Edge>, x: Edge)
    ensures Count(a + b, x) == Count(a, x) + Count(b, x)
  {
    if b != [] {
      CountAppend(a, b[..|b| - 1], x);
      assert (a + b)[..|a + b| - 1] == a + b[..|b| - 1];
    } else {
      assert a + b == a;
    }
  }

  /** Count agrees with the multiplicity of the multiset of s. */
  lemma {:induction false} CountMultiset(s: seq<Edge>, x: Edge)
    ensures Count(s, x) == multiset(s)[x]
  {
    if s != [] {
      CountMultiset(s[..|s| - 1], x);
      assert s == s[..|s| - 1] + [s[|s| - 1]];
    }
  }

  /** Only an element of s occurs in s. */
  lemma {:induction false} CountPositive(s: seq<Edge>, x: Edge)
    requires Count(s, x) > 0
    ensures x in s
  {
    if s[|s| - 1] != x {
      CountPositive(s[..|s| - 1], x);
    }
  }

  /** The group of v holds every copy of x when v is x's smaller end, and none otherwise. */
  lemma {:induction false} CountLowerAt(added: seq<Edge>, v: int, x: Edge)
    ensures Count(LowerAt(added, v), x) == if LowerEnd(x, v) then Count(added, x) else 0
  {
    if added != [] {
      var prefix, e := added[..|added| - 1], added[|added| - 1];
      CountLowerAt(prefix, v, x);
      var extra := if LowerEnd(e, v) then [e] else [];
      CountAppend(LowerAt(prefix, v), extra, x);
      if extra != [] {
        assert Count(extra, x) == Count([], x) + (if e == x then 1 else 0);
      }
    }
  }

  /** The first k groups hold every copy of x when x is no self-loop and its
      smaller end is below k, and none otherwise. */
  lemma {:induction false} CountGrouped(added: seq<Edge>, k: nat, x: Edge)
    ensures Count(Grouped(added, k), x) == if Joins(x, k) then Count(added, x) else 0
  {
    if k > 0 {
      CountGrouped(added, k - 1, x);
      CountLowerAt(added, k - 1, x);
      CountAppend(Grouped(added, k - 1), LowerAt(added, k - 1), x);
      assert Grouped(added, k) == Grouped(added, k - 1) + LowerAt(added, k - 1);
      assert Count(Grouped(added, k), x) == Count(Grouped(added, k - 1), x) + Count(LowerAt(added, k - 1), x);
      assert Joins(x, k) <==> Joins(x, k - 1) || LowerEnd(x, k - 1);
    }
  }

  /** NonLoops holds every copy of x unless x is a self-loop. */
  lemma {:induction false} CountNonLoops(added: seq<Edge>, x: Edge)
    ensures Count(NonLoops(added), x) == if x.from != x.to then Count(added, x) else 0
  {
    if added != [] {
      var prefix, e := added[..|added| - 1], added[|added| - 1];
      CountNonLoops(prefix, x);
      var extra := if e.from != e.to then [e] else [];
      CountAppend(NonLoops(prefix), extra, x);
      if extra != [] {
        assert Count(extra, x) == Count([], x) + (if e == x then 1 else 0);
      }
    }
  }

  /** The edges Edges reports are exactly the added edges that are not
      self-loops. */
  lemma NonLoopsMember(added: seq<Edge>, x: Edge)
    ensures x in multiset(NonLoops(added)) <==> x in added && x.from != x.to
  {
    CountNonLoops(added, x);
    CountMultiset(NonLoops(added), x);
    CountMultiset(added, x);
  }

  /** An edge listed at x was added with x as one of its ends. */
  lemma {:induction false} IncidentMember(added: seq<Edge>, x: int, e: Edge)
    requires e in Incident(added, x)
    ensures e in added && (e.from == x || e.to == x)
  {
    var prefix, last := added[..|added| - 1], added[|added| - 1];
    assert added == prefix + [last];
    if e in Incident(prefix, x) {
      IncidentMember(prefix, x, e);
    }
  }

  /** An added edge is listed at each of its ends. */
  lemma {:induction false} IncidentComplete(added: seq<Edge>, x: int, e: Edge)
    requires e in added && (e.from == x || e.to == x)
    ensures e in Incident(added, x)
  {
    var prefix, last := added[..|added| - 1], added[|added| - 1];
    assert added == prefix + [last];
    if e != last {
      IncidentComplete(prefix, x, e);
    }
  }

  /** Grouping by the smaller end loses no edge except the self-loops and
      repeats none, once every end is a vertex below n. */
  lemma GroupedComplete(added: seq<Edge>, n: nat)
    requires forall k :: 0 <= k < |added| ==> 0 <= added[k].from < n && 0 <= added[k].to < n
    ensures multiset(Grouped(added, n)) == multiset(NonLoops(added))
  {
    forall x: Edge ensures multiset(Grouped(added, n))[x] == multiset(NonLoops(added))[x] {
      CountGrouped(added, n, x);
      CountNonLoops(added, x);
      if Count(added, x) > 0 {
        CountPositive(added, x);
      }
      CountMultiset(Grouped(added, n), x);
      CountMultiset(NonLoops(added), x);
    }
  }

  /** adj holds the incidence lists of the added edges, whose ends are all
      vertices of adj. */
  ghost predicate Stored(adj: seq<seq<Edge>>, added: seq<Edge>)
  {
    (forall k :: 0 <= k < |added| ==> 0 <= added[k].from < |adj| && 0 <= added[k].to < |adj|)
    && (forall x :: 0 <= x < |adj| ==> adj[x] == Incident(added, x))
  }

  /** Both ends of an added edge are vertices of the store. */
  lemma AddedEnds(adj: seq<seq<Edge>>, added: seq<Edge>, e: Edge)
    requires Stored(adj, added) && e in added
    ensures 0 <= e.from < |adj| && 0 <= e.to < |adj|
  {
    var k :| 0 <= k < |added| && added[k] == e;
  }

  /** The far end of an edge listed at x is a vertex of the store. */
  lemma OtherInRange(adj: seq<seq<Edge>>, added: seq<Edge>, x: int, i: int)
    requires Stored(adj, added) && 0 <= x < |adj| && 0 <= i < |adj[x]|
    ensures 0 <= adj[x][i].Other(x) < |adj|
  {
    IncidentMember(added, x, adj[x][i]);
    AddedEnds(adj, added, adj[x][i]);
  }

  /** Edge-weighted undirected store: adj[x] lists the edges at x in the order added. */
  class WeightGraph {
    var adj: seq<seq<Edge>>
    var e: int
    /** Every edge passed to AddEdge so far, in order. */
    ghost var added: seq<Edge>

    ghost predicate Valid()
      reads this
    {
      Stored(adj, added) && e == |added|
    }

    /** NewWeightGraph: n vertices and no edges. */
    constructor (n: int)
      requires n >= 0
      ensures Valid() && |adj| == n && e == 0 && added == []
      ensures forall x :: 0 <= x < n ==> adj[x] == []
    {
      adj := seq(n, _ => []);
      e := 0;
      added := [];
    }

    /** Appends ed to the list of its from end and then of its to end, and
        counts one more edge. */
    method AddEdge(ed: Edge)
      requires Valid() && 0 <= ed.from < |adj| && 0 <= ed.to < |adj|
      modifies this
      ensures Valid() && added == old(added) + [ed] && e == old(e) + 1
      ensures |adj| == old(|adj|)
      ensures forall x :: 0 <= x < |adj| ==>
        adj[x] == old(adj[x]) + (if x == ed.from then [ed] else []) + (if x == ed.to then [ed] else [])
    {
      ghost var before := adj;
      adj := adj[ed.from := adj[ed.from] + [ed]];
      adj := adj[ed.to := adj[ed.to] + [ed]];
      e := e + 1;
      added := added + [ed];
      assert added[..|added| - 1] == old(added);
      forall x | 0 <= x < |adj|
        ensures adj[x] == before[x] + (if x == ed.from then [ed] else []) + (if x == ed.to then [ed] else [])
      {
        if x == ed.from && x == ed.to {
          assert adj[x] == before[x] + [ed] + [ed];
        }
      }
    }

    /** The edges at x, with a self-loop twice, in the order added. */
    function Adj(x: int): (r: seq<Edge>)
      reads this
      requires Valid() && 0 <= x < |adj|
      ensures r == Incident(added, x)
    {
      adj[x]
    }

    /** The number of incidence lists. */
    function V(): (r: int)
      reads this
      ensures r == |adj| && r >= 0
    {
      |adj|
    }

    /** The number of AddEdge calls. */
    function E(): (r: int)
      reads this
      requires Valid()
      ensures r == |added|
    {
      e
    }

    /** Every added edge that is not a self-loop, once, grouped by its
        smaller end in ascending order and in insertion order within a group. */
    method Edges() returns (edges: seq<Edge>)
      requires Valid()
      ensures edges == Grouped(added, |adj|)
      ensures multiset(edges) == multiset(NonLoops(added))
    {
      edges := [];
      var v := 0;
      while v < |adj|
        invariant 0 <= v <= |adj|
        invariant edges == Grouped(added, v)
      {
        edges := AppendLower(edges, v);
        v := v + 1;
      }
      GroupedComplete(added, |adj|);
    }

    /** The inner loop of Edges: appends the edges at v whose other end is
        greater than v, which are the edges whose smaller end is v. */
    method AppendLower(edges: seq<Edge>, v: int) returns (edges': seq<Edge>)
      requires Valid() && 0 <= v < |adj|
      ensures edges' == edges + LowerAt(added, v)
    {
      edges' := edges;
      var list := Adj(v);
      var i := 0;
      while i < |list|
        invariant 0 <= i <= |list|
        invariant edges' == edges + Kept(list[..i], v)
      {
        var ed := list[i];
        KeptStep(list, i, v);
        if ed.Other(v) > v {
          edges' := edges' + [ed];
        }
        i := i + 1;
      }
      assert list[..i] == list;
      KeptIncident(added, v);
    }
  }
}
