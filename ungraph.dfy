// The two undirected stores: an adjacency list whose lists grow by appends,
// and a square boolean matrix whose cells are set in place.
module Ungraph {
  import opened Sequences

  /** The other ends recorded at x by replaying the AddEdge calls in order:
      the call for (a, b) appends b to a's list and then a to b's list. */
  ghost function Ends(edges: seq<(int, int)>, x: int): seq<int>
  {
    if edges == [] then []
    else
      var e := edges[|edges| - 1];
      Ends(edges[..|edges| - 1], x) + (if e.0 == x then [e.1] else []) + (if e.1 == x then [e.0] else [])
  }

  /** w occurs at v as often as v occurs at w: every call is listed at both ends. */
  lemma {:induction false} EndsSymmetric(edges: seq<(int, int)>, v: int, w: int)
    ensures multiset(Ends(edges, v))[w] == multiset(Ends(edges, w))[v]
  {
    if edges != [] {
      EndsSymmetric(edges[..|edges| - 1], v, w);
    }
  }

  /** Adjacency-list store: adj[x] lists, in call order, the other end of every
      AddEdge call that touched x. */
  class AdjList {
    const v: int
    var adj: seq<seq<int>>
    /** Every AddEdge call so far, in order. */
    ghost var edges: seq<(int, int)>

    ghost predicate Valid()
      reads this
    {
      |adj| == v
      && (forall k :: 0 <= k < |edges| ==> 0 <= edges[k].0 < v && 0 <= edges[k].1 < v)
      && (forall x :: 0 <= x < v ==> adj[x] == Ends(edges, x))
      && SumLengths(adj) == 2 * |edges|
    }

    /** NewAdjList: v vertices and no edges. */
    constructor (n: int)
      requires n >= 0
      ensures Valid() && v == n && edges == []
      ensures forall x :: 0 <= x < n ==> adj[x] == []
    {
      v := n;
      adj := seq(n, _ => []);
      edges := [];
      new;
      SumLengthsZero(adj);
    }

    /** Appends b to a's list and then a to b's list; a self-loop appends a twice. */
    method AddEdge(a: int, b: int)
      requires Valid() && 0 <= a < v && 0 <= b < v
      modifies this
      ensures Valid() && edges == old(edges) + [(a, b)]
      ensures |adj| == v
      ensures forall x :: 0 <= x < v ==>
        adj[x] == old(adj[x]) + (if x == a then [b] else []) + (if x == b then [a] else [])
    {
      ghost var before := adj;
      SumLengthsUpdate(adj, a, adj[a] + [b]);
      adj := adj[a := adj[a] + [b]];
      SumLengthsUpdate(adj, b, adj[b] + [a]);
      adj := adj[b := adj[b] + [a]];
      edges := edges + [(a, b)];
      assert edges[..|edges| - 1] == old(edges);
      forall x | 0 <= x < v
        ensures adj[x] == before[x] + (if x == a then [b] else []) + (if x == b then [a] else [])
      {
        if x == a && x == b {
          assert adj[x] == before[x] + [b] + [a];
        }
      }
    }

    /** The neighbours of x, with multiplicity, in the order the calls added them. */
    function Adj(x: int): (r: seq<int>)
      reads this
      requires Valid() && 0 <= x < v
      ensures r == Ends(edges, x)
    {
      adj[x]
    }

    /** The number of vertices: one adjacency list per vertex. */
    function V(): (r: int)
      reads this
      requires Valid()
      ensures r == |adj|
    {
      v
    }

    /** Sums the list lengths and halves: the number of AddEdge calls. */
    method E() returns (e: int)
      requires Valid()
      ensures e == |edges|
    {
      var sum, x := 0, 0;
      while x < |adj|
        invariant 0 <= x <= |adj|
        invariant sum == SumLengths(adj[..x])
      {
        SumLengthsPrefix(adj, x);
        sum := sum + |adj[x]|;
        x := x + 1;
      }
      assert adj[..|adj|] == adj;
      e := sum / 2;
    }
  }

  /** Each list of an adjacency-list store mirrors the others: w occurs in Adj(v)
      exactly as often as v occurs in Adj(w). */
  lemma AdjListSymmetric(g: AdjList, x: int, y: int)
    requires g.Valid() && 0 <= x < g.v && 0 <= y < g.v
    ensures multiset(g.adj[x])[y] == multiset(g.adj[y])[x]
    ensures y in g.adj[x] <==> x in g.adj[y]
  {
    EndsSymmetric(g.edges, x, y);
  }

  /** The number of true entries of a row. */
  function CountTrue(row: seq<bool>): nat
  {
    if row == [] then 0 else CountTrue(row[..|row| - 1]) + (if row[|row| - 1] then 1 else 0)
  }

  /** The number of true cells of a matrix. */
  function CellCount(cells: seq<seq<bool>>): nat
  {
    if cells == [] then 0 else CellCount(cells[..|cells| - 1]) + CountTrue(cells[|cells| - 1])
  }

  lemma {:induction false} CountTrueSet(row: seq<bool>, j: int)
    requires 0 <= j < |row|
    ensures CountTrue(row[j := true]) == CountTrue(row) + (if row[j] then 0 else 1)
  {
    var last := |row| - 1;
    if j < last {
      CountTrueSet(row[..last], j);
      assert row[j := true][..last] == row[..last][j := true];
    } else {
      assert row[j := true][..last] == row[..last];
    }
  }

  lemma {:induction false} CellCountUpdate(cells: seq<seq<bool>>, i: int, row: seq<bool>)
    requires 0 <= i < |cells|
    ensures CellCount(cells[i := row]) == CellCount(cells) - CountTrue(cells[i]) + CountTrue(row)
  {
    var last := |cells| - 1;
    if i < last {
      CellCountUpdate(cells[..last], i, row);
      assert cells[i := row][..last] == cells[..last][i := row];
    } else {
      assert cells[i := row][..last] == cells[..last];
    }
  }

  lemma CellCountStep(cells: seq<seq<bool>>, x: int)
    requires 0 <= x < |cells|
    ensures CellCount(cells[..x + 1]) == CellCount(cells[..x]) + CountTrue(cells[x])
  {
    assert cells[..x + 1][..x] == cells[..x];
  }

  /** The cells after AddEdge(a, b): cell (a, b) and then cell (b, a) set. */
  function SetEdge(cells: seq<seq<bool>>, a: int, b: int): (r: seq<seq<bool>>)
    requires 0 <= a < |cells| && 0 <= b < |cells| && b < |cells[a]|
    requires a < |cells[b]|
    ensures |r| == |cells|
    ensures forall i :: 0 <= i < |cells| ==> |r[i]| == |cells[i]|
    ensures r[a][b] && r[b][a]
    ensures forall i, j ::
              0 <= i < |cells| && 0 <= j < |cells[i]| && !(i == a && j == b) && !(i == b && j == a)
              ==> r[i][j] == cells[i][j]
  {
    var first := cells[a := cells[a][b := true]];
    first[b := first[b][a := true]]
  }

  /** Adding an edge that is already present changes no cell. */
  lemma SetEdgeIdempotent(cells: seq<seq<bool>>, a: int, b: int)
    requires 0 <= a < |cells| && 0 <= b < |cells| && b < |cells[a]| && a < |cells[b]|
    ensures SetEdge(SetEdge(cells, a, b), a, b) == SetEdge(cells, a, b)
  {
    var once := SetEdge(cells, a, b);
    var twice := SetEdge(once, a, b);
    forall i | 0 <= i < |cells| ensures twice[i] == once[i] {
      forall j | 0 <= j < |cells[i]| ensures twice[i][j] == once[i][j] {
      }
    }
  }

  /** A new edge between two distinct vertices adds two true cells, a new
      self-loop adds one: what AdjMatrix.E counts. */
  lemma SetEdgeCount(cells: seq<seq<bool>>, a: int, b: int)
    requires 0 <= a < |cells| && 0 <= b < |cells| && b < |cells[a]| && a < |cells[b]|
    requires !cells[a][b] && !cells[b][a]
    ensures CellCount(SetEdge(cells, a, b)) == CellCount(cells) + (if a == b then 1 else 2)
  {
    var first := cells[a := cells[a][b := true]];
    CountTrueSet(cells[a], b);
    CellCountUpdate(cells, a, cells[a][b := true]);
    CountTrueSet(first[b], a);
    CellCountUpdate(first, b, first[b][a := true]);
  }

  /** The first i cells of row scanned: edges lists, in ascending order,
      exactly the columns below i whose cell is true. */
  ghost predicate RowScanned(row: seq<bool>, i: int, edges: seq<int>)
  {
    0 <= i <= |row|
    && (forall k :: 0 <= k < |edges| ==> 0 <= edges[k] < i)
    && (forall k, l :: 0 <= k < l < |edges| ==> edges[k] < edges[l])
    && (forall j :: 0 <= j < i ==> (j in edges <==> row[j]))
    && |edges| == CountTrue(row[..i])
  }

  lemma RowScanStep(row: seq<bool>, i: int, edges: seq<int>)
    requires RowScanned(row, i, edges) && i < |row|
    ensures RowScanned(row, i + 1, if row[i] then edges + [i] else edges)
  {
    assert row[..i + 1][..i] == row[..i];
  }

  /** Matrix store: matrix[i, j] tells whether an edge i-j was added. */
  class AdjMatrix {
    const matrix: array2<bool>

    ghost predicate Valid()
      reads this, matrix
    {
      matrix.Length0 == matrix.Length1
      && forall i, j :: 0 <= i < matrix.Length0 && 0 <= j < matrix.Length0 ==> matrix[i, j] == matrix[j, i]
    }

    /** The rows of the matrix as values. */
    ghost function Cells(): (c: seq<seq<bool>>)
      reads this, matrix
      ensures |c| == matrix.Length0
      ensures forall i :: 0 <= i < |c| ==> |c[i]| == matrix.Length1
      ensures forall i, j :: 0 <= i < matrix.Length0 && 0 <= j < matrix.Length1 ==> c[i][j] == matrix[i, j]
    {
      seq(matrix.Length0, i requires 0 <= i < matrix.Length0 reads matrix =>
        seq(matrix.Length1, j requires 0 <= j < matrix.Length1 reads matrix => matrix[i, j]))
    }

    /** NewAdjMatrix: an n-by-n matrix of false cells. */
    constructor (n: int)
      requires n >= 0
      ensures Valid() && fresh(matrix)
      ensures matrix.Length0 == n && matrix.Length1 == n
      ensures forall i, j :: 0 <= i < n && 0 <= j < n ==> !matrix[i, j]
    {
      matrix := new bool[n, n]((i, j) => false);
    }

    /** Sets cell (a, b) and cell (b, a); every other cell is unchanged. */
    method AddEdge(a: int, b: int)
      requires Valid() && 0 <= a < matrix.Length0 && 0 <= b < matrix.Length0
      modifies matrix
      ensures Valid()
      ensures Cells() == SetEdge(old(Cells()), a, b)
    {
      ghost var before := Cells();
      matrix[a, b] := true;
      matrix[b, a] := true;
      ghost var expected := SetEdge(before, a, b);
      forall i | 0 <= i < matrix.Length0 ensures Cells()[i] == expected[i] {
        forall j | 0 <= j < matrix.Length1 ensures Cells()[i][j] == expected[i][j] {
        }
      }
    }

    /** The columns of row x holding true, in ascending order. */
    method Adj(x: int) returns (edges: seq<int>)
      requires Valid() && 0 <= x < matrix.Length0
      ensures forall k :: 0 <= k < |edges| ==> 0 <= edges[k] < matrix.Length1
      ensures forall k, l :: 0 <= k < l < |edges| ==> edges[k] < edges[l]
      ensures forall i :: 0 <= i < matrix.Length1 ==> (i in edges <==> matrix[x, i])
      ensures |edges| == CountTrue(Cells()[x])
    {
      ghost var row := Cells()[x];
      edges := [];
      var i := 0;
      while i < matrix.Length1
        invariant RowScanned(row, i, edges)
      {
        RowScanStep(row, i, edges);
        if matrix[x, i] {
          edges := edges + [i];
        }
        i := i + 1;
      }
      assert row[..i] == row;
    }

    /** The number of vertices: the side of the matrix. */
    function V(): (r: int)
      reads this
      ensures r == matrix.Length0
    {
      matrix.Length0
    }

    /** Sums the row degrees without halving: the number of true cells, so an
        edge between distinct vertices counts twice and a self-loop once. */
    method E() returns (c: int)
      requires Valid()
      ensures c == CellCount(Cells())
    {
      ghost var cells := Cells();
      c := 0;
      var x := 0;
      while x < matrix.Length0
        invariant 0 <= x <= matrix.Length0
        invariant c == CellCount(cells[..x]) && cells == Cells()
      {
        CellCountStep(cells, x);
        var edges := Adj(x);
        c := c + |edges|;
        x := x + 1;
      }
      assert cells[..x] == cells;
    }
  }
}
