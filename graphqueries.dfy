// The whole-graph queries of the root package: degrees, the cycle and
// two-colouring checks as they are written, and the Euler-tour test. Each
// query reads the graph only through V() and Adj(v), so it takes the
// adjacency snapshot g.
module GraphQueries {
  import opened Graphs
  import Ungraph

  /** The degree of v: the length of its list, so a self-loop counted in an
      undirected store counts twice. */
  function Degree(g: Adjacency, v: int): (r: nat)
    requires 0 <= v < |g|
    ensures r == |g[v]|
  {
    |g[v]|
  }

  /** Degree as a call that may fail: Adj(v) indexes the store's slice, so a
      vertex outside 0 .. V - 1 is an index-out-of-range panic. */
  function DegreeAt(g: Adjacency, v: int): (r: Outcome<nat>)
    ensures r.Crashed? <==> !(0 <= v < |g|)
    ensures r.Crashed? ==> r.failure == IndexOutOfRange
    ensures r.Returned? ==> r.value == Degree(g, v)
  {
    if 0 <= v < |g| then Returned(Degree(g, v)) else Crashed(IndexOutOfRange)
  }

  /** The number of ends equal to x among the recorded AddEdge calls. */
  ghost function EndCount(edges: seq<(int, int)>, x: int): nat
  {
    if edges == [] then 0
    else
      var e := edges[|edges| - 1];
      EndCount(edges[..|edges| - 1], x) + (if e.0 == x then 1 else 0) + (if e.1 == x then 1 else 0)
  }

  lemma {:induction false} EndsLength(edges: seq<(int, int)>, x: int)
    ensures |Ungraph.Ends(edges, x)| == EndCount(edges, x)
  {
    if edges != [] {
      EndsLength(edges[..|edges| - 1], x);
    }
  }

  /** In an adjacency-list store the degree of x is the number of AddEdge
      ends at x: one per edge, two per self-loop. */
  lemma AdjListDegree(g: Ungraph.AdjList, x: int)
    requires g.Valid() && 0 <= x < g.v
    ensures Degree(g.adj, x) == EndCount(g.edges, x)
  {
    EndsLength(g.edges, x);
  }

  /** The running maximum over the degrees, starting from 0. */
  method MaxDegree(g: Adjacency) returns (max: int)
    ensures forall v :: 0 <= v < |g| ==> Degree(g, v) <= max
    ensures max == 0 || exists v :: 0 <= v < |g| && max == Degree(g, v)
    ensures |g| == 0 ==> max == 0
  {
    max := 0;
    var v := 0;
    while v < |g|
      invariant 0 <= v <= |g|
      invariant forall w :: 0 <= w < v ==> Degree(g, w) <= max
      invariant max == 0 || exists w :: 0 <= w < v && max == Degree(g, w)
    {
      var deg := Degree(g, v);
      if deg > max {
        max := deg;
      }
      v := v + 1;
    }
  }

  /** MinDegree as written: its first statement asks for the degree of
      vertex V(), one past the last vertex, so it panics on every graph and
      the loop after it is never reached. */
  function MinDegreeAsWritten(g: Adjacency): (r: Outcome<nat>)
    ensures r.Crashed?
  {
    DegreeAt(g, |g|)
  }

  /** Whatever the graph, MinDegree as written never returns. */
  lemma MinDegreeAsWrittenPanics(g: Adjacency)
    ensures MinDegreeAsWritten(g) == Crashed(IndexOutOfRange)
  {
  }

  /** MinDegree as intended: the running minimum over every vertex, starting
      from the degree of vertex 0; 0 for a graph without vertices. */
  method MinDegree(g: Adjacency) returns (min: int)
    ensures forall v :: 0 <= v < |g| ==> min <= Degree(g, v)
    ensures |g| > 0 ==> exists v :: 0 <= v < |g| && min == Degree(g, v)
    ensures |g| == 0 ==> min == 0
  {
    if |g| == 0 {
      return 0;
    }
    min := Degree(g, 0);
    var v := 1;
    while v < |g|
      invariant 1 <= v <= |g|
      invariant forall w :: 0 <= w < v ==> min <= Degree(g, w)
      invariant exists w :: 0 <= w < v && min == Degree(g, w)
    {
      var deg := Degree(g, v);
      if deg < min {
        min := deg;
      }
      v := v + 1;
    }
  }

  /** The first vertex at or after v whose list is not empty, or |g| if none. */
  function FirstNonEmpty(g: Adjacency, v: nat): (r: nat)
    requires v <= |g|
    ensures v <= r <= |g|
    ensures forall w :: v <= w < r ==> g[w] == []
    ensures r < |g| ==> g[r] != []
    decreases |g| - v
  {
    if v == |g| then |g| else if g[v] != [] then v else FirstNonEmpty(g, v + 1)
  }

  /** What HasCycle as written does on an undirected graph: false without
      edges; otherwise the first list that has an entry decides, a self-loop
      there recursing without end and anything else answering true. */
  function HasCycleVerdict(g: Adjacency): Outcome<bool>
  {
    var v := FirstNonEmpty(g, 0);
    if v == |g| then Returned(false)
    else if g[v][0] == v then Crashed(StackOverflow)
    else Returned(true)
  }

  /** What IsBipartite as written does on an undirected graph: true without
      edges; otherwise the first list that has an entry decides, a self-loop
      there recursing without end and anything else answering false. */
  function IsBipartiteVerdict(g: Adjacency): Outcome<bool>
  {
    var v := FirstNonEmpty(g, 0);
    if v == |g| then Returned(true)
    else if g[v][0] == v then Crashed(StackOverflow)
    else Returned(false)
  }

  /** In an undirected graph the first entry of the first non-empty list is
      never an earlier vertex: that vertex's list would hold the entry back. */
  lemma FirstEntryNotEarlier(g: Adjacency, v: int)
    requires WellFormed(g) && Symmetric(g)
    requires 0 <= v < |g| && g[v] != []
    requires forall w :: 0 <= w < v ==> g[w] == []
    ensures g[v][0] >= v
  {
    var w := g[v][0];
    assert v in g[w];
  }

  /** The recursive closure of HasCycle: it marks v, recurses into every
      neighbour that is already marked (discarding the answer), and answers
      true at the first unmarked neighbour that is not the caller u. depth
      is the number of nested calls the stack still has room for. */
  method HasCycleVisit(g: Adjacency, marked: array<bool>, v: int, u: int, depth: nat) returns (r: Outcome<bool>)
    requires WellFormed(g) && marked.Length == |g| && 0 <= v < |g|
    modifies marked
    ensures depth == 0 ==> r == Crashed(StackOverflow)
    ensures depth > 0 && g[v] == [] ==> r == Returned(false) && marked[..] == old(marked[..])[v := true]
    ensures depth > 0 && g[v] != [] && g[v][0] == v ==> r == Crashed(StackOverflow)
    ensures depth > 0 && g[v] != [] && g[v][0] != v && g[v][0] != u && !old(marked[g[v][0]]) ==> r == Returned(true)
    decreases depth
  {
    if depth == 0 {
      return Crashed(StackOverflow);
    }
    ghost var before := marked[..];
    marked[v] := true;
    var i := 0;
    while i < |g[v]|
      invariant 0 <= i <= |g[v]|
      invariant i == 0 ==> marked[..] == before[v := true]
      invariant i > 0 ==> g[v][0] != v && (g[v][0] == u || before[g[v][0]])
    {
      var adj := g[v][i];
      if marked[adj] {
        var sub := HasCycleVisit(g, marked, adj, v, depth - 1);
        if sub.Crashed? {
          return sub;
        }
      } else if u != adj {
        return Returned(true);
      }
      i := i + 1;
    }
    return Returned(false);
  }

  /** HasCycle as written, with room for depth nested calls. On an undirected
      graph it gives HasCycleVerdict. */
  method HasCycleAsWritten(g: Adjacency, depth: nat) returns (r: Outcome<bool>)
    requires WellFormed(g)
    ensures Symmetric(g) && depth > 0 ==> r == HasCycleVerdict(g)
  {
    var marked := new bool[|g|](_ => false);
    var v := 0;
    while v < |g|
      invariant 0 <= v <= |g|
      invariant Symmetric(g) && depth > 0 ==> forall w :: 0 <= w < v ==> g[w] == []
      invariant Symmetric(g) && depth > 0 ==> forall w :: 0 <= w < |g| ==> marked[w] == (w < v)
    {
      if !marked[v] {
        if Symmetric(g) && depth > 0 && g[v] != [] {
          FirstEntryNotEarlier(g, v);
        }
        var found := HasCycleVisit(g, marked, v, v, depth);
        if found != Returned(false) {
          return found;
        }
      }
      v := v + 1;
    }
    return Returned(false);
  }

  /** The recursive closure of IsBipartite: it marks v and, for a marked
      neighbour, sets v's colour opposite to it and recurses (discarding the
      answer); at the first unmarked neighbour of v's colour it answers false. */
  method IsBipartiteVisit(g: Adjacency, marked: array<bool>, color: array<bool>, v: int, depth: nat) returns (r: Outcome<bool>)
    requires WellFormed(g) && marked.Length == |g| && color.Length == |g| && 0 <= v < |g|
    requires marked != color
    modifies marked, color
    ensures depth == 0 ==> r == Crashed(StackOverflow)
    ensures depth > 0 && g[v] == [] ==> r == Returned(true) && marked[..] == old(marked[..])[v := true] && color[..] == old(color[..])
    ensures depth > 0 && g[v] != [] && g[v][0] == v ==> r == Crashed(StackOverflow)
    ensures depth > 0 && g[v] != [] && g[v][0] != v && !old(marked[g[v][0]]) && old(color[v]) == old(color[g[v][0]]) ==> r == Returned(false)
    decreases depth
  {
    if depth == 0 {
      return Crashed(StackOverflow);
    }
    ghost var before, hues := marked[..], color[..];
    marked[v] := true;
    var i := 0;
    while i < |g[v]|
      invariant 0 <= i <= |g[v]|
      invariant i > 0 ==> g[v][0] != v && (before[g[v][0]] || hues[v] != hues[g[v][0]])
      invariant i == 0 ==> marked[..] == before[v := true] && color[..] == hues
    {
      var adj := g[v][i];
      if marked[adj] {
        color[v] := !color[adj];
        var sub := IsBipartiteVisit(g, marked, color, adj, depth - 1);
        if sub.Crashed? {
          return sub;
        }
      } else if color[v] == color[adj] {
        return Returned(false);
      }
      i := i + 1;
    }
    return Returned(true);
  }

  /** IsBipartite as written, with room for depth nested calls. On an
      undirected graph it gives IsBipartiteVerdict. */
  method IsBipartiteAsWritten(g: Adjacency, depth: nat) returns (r: Outcome<bool>)
    requires WellFormed(g)
    ensures Symmetric(g) && depth > 0 ==> r == IsBipartiteVerdict(g)
  {
    var marked := new bool[|g|](_ => false);
    var color := new bool[|g|](_ => false);
    var v := 0;
    while v < |g|
      invariant 0 <= v <= |g|
      invariant Symmetric(g) && depth > 0 ==> forall w :: 0 <= w < v ==> g[w] == []
      invariant Symmetric(g) && depth > 0 ==> forall w :: 0 <= w < |g| ==> marked[w] == (w < v)
      invariant Symmetric(g) && depth > 0 ==> forall w :: 0 <= w < |g| ==> !color[w]
    {
      if !marked[v] {
        if Symmetric(g) && depth > 0 && g[v] != [] {
          FirstEntryNotEarlier(g, v);
        }
        var ok := IsBipartiteVisit(g, marked, color, v, depth);
        if ok != Returned(true) {
          return ok;
        }
      }
      v := v + 1;
    }
    return Returned(true);
  }

  /** colour gives the two ends of every edge different colours. */
  ghost predicate ProperColouring(g: Adjacency, colour: seq<bool>)
  {
    |colour| == |g|
    && forall v, i :: 0 <= v < |g| && 0 <= i < |g[v]| && 0 <= g[v][i] < |g| ==> colour[v] != colour[g[v][i]]
  }

  /** The path 0 - 1 - 2 of the bipartite fixture as an undirected store lists
      it, with the extra isolated vertex 3 the fixture builder adds. */
  function PathFixture(): Adjacency
  {
    [[1], [0, 2], [1], []]
  }

  /** The path has no cycle and can be two-coloured, yet HasCycle as written
      reports a cycle and IsBipartite as written reports it not bipartite. */
  lemma PathFixtureVerdicts()
    ensures WellFormed(PathFixture()) && Symmetric(PathFixture())
    ensures ProperColouring(PathFixture(), [false, true, false, false])
    ensures HasCycleVerdict(PathFixture()) == Returned(true)
    ensures IsBipartiteVerdict(PathFixture()) == Returned(false)
  {
    var g := PathFixture();
    assert FirstNonEmpty(g, 0) == 0;
    forall v, i | 0 <= v < |g| && 0 <= i < |g[v]| && 0 <= g[v][i] < |g|
      ensures v in g[g[v][i]]
    {
      assert v == 0 || v == 1 || v == 2;
    }
  }

  /** A graph with a self-loop on the first non-empty list never gets an
      answer from either check, however deep the stack. */
  lemma SelfLoopVerdicts()
    ensures WellFormed([[0]]) && Symmetric([[0]])
    ensures HasCycleVerdict([[0]]) == Crashed(StackOverflow)
    ensures IsBipartiteVerdict([[0]]) == Crashed(StackOverflow)
  {
    assert FirstNonEmpty([[0]], 0) == 0;
  }

  /** Without edges both checks answer as documented. */
  lemma NoEdgeVerdicts(g: Adjacency)
    requires forall v :: 0 <= v < |g| ==> g[v] == []
    ensures HasCycleVerdict(g) == Returned(false)
    ensures IsBipartiteVerdict(g) == Returned(true)
  {
    var w := FirstNonEmpty(g, 0);
  }

  /** Every degree from v on is even. */
  function EvenFrom(g: Adjacency, v: nat): (r: bool)
    requires v <= |g|
    ensures r <==> forall w :: v <= w < |g| ==> Degree(g, w) % 2 == 0
    decreases |g| - v
  {
    if v == |g| then true
    else if Degree(g, v) % 2 != 0 then false
    else EvenFrom(g, v + 1)
  }

  /** HasEulerTour scans the vertices in ascending order and answers false at
      the first odd degree: it holds exactly when every degree is even. */
  function HasEulerTour(g: Adjacency): (r: bool)
    ensures r <==> forall v :: 0 <= v < |g| ==> Degree(g, v) % 2 == 0
    ensures |g| == 0 ==> r
  {
    EvenFrom(g, 0)
  }
}
