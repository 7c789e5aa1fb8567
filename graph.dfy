/**
 * graph.py: vertices that own lists of weighted edges, and a graph that
 * builds them from an adjacency matrix. The matrix file is replaced by its
 * rows of integers; an entry d at row i, column j becomes an edge from vertex
 * i to vertex j of weight d exactly when d > 0.
 */
module Graph {
  import opened Wrappers

  /** `sys.maxint` of a 64-bit Python 2: the initial distance of a vertex. */
  const MaxInt: int := 0x7fff_ffff_ffff_ffff

  // --------------------------------------------------------------------------
  // Vertex labels: `str(i)`
  // --------------------------------------------------------------------------

  function DigitChar(d: nat): char
    requires d < 10
  {
    "0123456789"[d]
  }

  function DigitValue(c: char): int {
    c as int - '0' as int
  }

  /** How many values `range(n)` yields: none when n is negative. */
  function RangeLength(n: int): nat {
    if n < 0 then 0 else n
  }

  /** `str(n)` for a natural number: its decimal digits, most significant first. */
  function Decimal(n: nat): (s: string)
    ensures |s| > 0 && forall c :: c in s ==> '0' <= c <= '9'
    decreases n
  {
    if n < 10 then [DigitChar(n)] else Decimal(n / 10) + [DigitChar(n % 10)]
  }

  /** The number a string of decimal digits denotes. */
  function DecimalValue(s: string): int
    decreases |s|
  {
    if s == [] then 0 else DecimalValue(s[..|s| - 1]) * 10 + DigitValue(s[|s| - 1])
  }

  /** Reading a label back gives the vertex index: `int(str(n)) == n`. */
  lemma {:induction false} DecimalRoundTrip(n: nat)
    ensures DecimalValue(Decimal(n)) == n
    decreases n
  {
    if n >= 10 {
      DecimalRoundTrip(n / 10);
      var s := Decimal(n);
      assert s[..|s| - 1] == Decimal(n / 10);
    }
  }

  /** Different indices get different labels. */
  lemma DecimalInjective(m: nat, n: nat)
    requires m != n
    ensures Decimal(m) != Decimal(n)
  {
    DecimalRoundTrip(m);
    DecimalRoundTrip(n);
  }

  // --------------------------------------------------------------------------
  // The matrix-to-edges rule (graph.py:72-82), on values
  // --------------------------------------------------------------------------

  /** A positive matrix entry: `distance` at `row`, `column`. */
  datatype Entry = Entry(row: nat, column: nat, distance: int)

  datatype IndexError = IndexError

  /** The positive entries of one row `i`, in column order. */
  function RowEntries(i: nat, row: seq<int>): seq<Entry>
    decreases |row|
  {
    if row == [] then []
    else
      var c := |row| - 1;
      RowEntries(i, row[..c]) + (if row[c] > 0 then [Entry(i, c, row[c])] else [])
  }

  /** The positive entries of the whole matrix, row by row, each row in column order. */
  function MatrixEntries(rows: seq<seq<int>>): seq<Entry>
    decreases |rows|
  {
    if rows == [] then []
    else
      var r := |rows| - 1;
      MatrixEntries(rows[..r]) + RowEntries(r, rows[r])
  }

  /** An entry names a vertex that exists on both ends. */
  predicate Within(e: Entry, n: nat) {
    e.row < n && e.column < n
  }

  /**
   * The entries the loop gets through with `n` vertices: everything before
   * the first entry whose row or column index is out of range, where the
   * subscript raises IndexError.
   */
  function Applied(es: seq<Entry>, n: nat): (r: seq<Entry>)
    ensures r <= es
    ensures forall e :: e in r ==> Within(e, n)
    ensures |r| < |es| ==> !Within(es[|r|], n)
    decreases |es|
  {
    if es == [] then []
    else if Within(es[0], n) then [es[0]] + Applied(es[1..], n)
    else []
  }

  /** The entries that belong to vertex i, in their order. */
  function RowOf(es: seq<Entry>, i: nat): seq<Entry>
    decreases |es|
  {
    if es == [] then []
    else
      var e := es[|es| - 1];
      RowOf(es[..|es| - 1], i) + (if e.row == i then [e] else [])
  }

  /** One entry of the matrix: `row` names its position, `column` lies within the row, and it is positive. */
  ghost predicate IsEntryOf(rows: seq<seq<int>>, e: Entry) {
    e.row < |rows| && e.column < |rows[e.row]| && rows[e.row][e.column] == e.distance && e.distance > 0
  }

  /** A row contributes exactly its positive entries. */
  lemma {:induction false} RowEntriesExact(i: nat, row: seq<int>)
    ensures forall e :: e in RowEntries(i, row) <==>
      e.row == i && e.column < |row| && row[e.column] == e.distance && e.distance > 0
    decreases |row|
  {
    if row != [] {
      var c := |row| - 1;
      RowEntriesExact(i, row[..c]);
    }
  }

  /** Within a row the entries come in strictly increasing column order. */
  lemma {:induction false} RowEntriesIncrease(i: nat, row: seq<int>)
    ensures forall a, b :: 0 <= a < b < |RowEntries(i, row)| ==>
      RowEntries(i, row)[a].column < RowEntries(i, row)[b].column
    decreases |row|
  {
    if row != [] {
      var c := |row| - 1;
      RowEntriesIncrease(i, row[..c]);
      RowEntriesExact(i, row[..c]);
      var p := RowEntries(i, row[..c]);
      forall a | 0 <= a < |p| ensures p[a].column < c {
        assert p[a] in p;
      }
    }
  }

  /** The matrix contributes exactly its positive entries: zero and negative entries give no edge. */
  lemma {:induction false} MatrixEntriesExact(rows: seq<seq<int>>)
    ensures forall e :: e in MatrixEntries(rows) <==> IsEntryOf(rows, e)
    decreases |rows|
  {
    if rows != [] {
      var r := |rows| - 1;
      MatrixEntriesExact(rows[..r]);
      RowEntriesExact(r, rows[r]);
      forall e ensures e in MatrixEntries(rows) <==> IsEntryOf(rows, e) {
        if e.row < r {
          assert rows[..r][e.row] == rows[e.row];
        }
      }
    }
  }

  /** Taking the entries of one vertex distributes over concatenation. */
  lemma {:induction false} RowOfAppend(a: seq<Entry>, b: seq<Entry>, i: nat)
    ensures RowOf(a + b, i) == RowOf(a, i) + RowOf(b, i)
    decreases |b|
  {
    if b == [] {
      assert a + b == a;
    } else {
      var b', e := b[..|b| - 1], b[|b| - 1];
      var x := if e.row == i then [e] else [];
      assert (a + b)[..|a + b| - 1] == a + b' && (a + b)[|a + b| - 1] == e;
      RowOfAppend(a, b', i);
      assert RowOf(a + b, i) == RowOf(a + b', i) + x;
      assert RowOf(b, i) == RowOf(b', i) + x;
    }
  }

  /** Entries all of one row belong wholly to that row's vertex and to no other. */
  lemma {:induction false} RowOfSingleRow(es: seq<Entry>, j: nat, i: nat)
    requires forall e :: e in es ==> e.row == j
    ensures RowOf(es, i) == if i == j then es else []
    decreases |es|
  {
    if es != [] {
      var es' := es[..|es| - 1];
      assert forall e :: e in es' ==> e in es;
      RowOfSingleRow(es', j, i);
    }
  }

  /**
   * The entries of vertex i are the positive entries of row i, in column
   * order; a vertex without a row gets none.
   */
  lemma {:induction false} VertexEntries(rows: seq<seq<int>>, i: nat)
    ensures RowOf(MatrixEntries(rows), i) == if i < |rows| then RowEntries(i, rows[i]) else []
    decreases |rows|
  {
    if rows != [] {
      var r := |rows| - 1;
      VertexEntries(rows[..r], i);
      RowOfAppend(MatrixEntries(rows[..r]), RowEntries(r, rows[r]), i);
      RowEntriesExact(r, rows[r]);
      RowOfSingleRow(RowEntries(r, rows[r]), r, i);
      if i < r {
        assert rows[..r][i] == rows[i];
      }
    }
  }

  /** Cutting a row keeps a prefix of its entries. */
  lemma {:induction false} RowEntriesPrefix(i: nat, row: seq<int>, c: nat)
    requires c <= |row|
    ensures RowEntries(i, row[..c]) <= RowEntries(i, row)
    decreases |row| - c
  {
    if c < |row| {
      RowEntriesPrefix(i, row, c + 1);
      assert row[..c + 1][..c] == row[..c];
    } else {
      assert row[..c] == row;
    }
  }

  /** Cutting the matrix keeps a prefix of its entries. */
  lemma {:induction false} MatrixEntriesPrefix(rows: seq<seq<int>>, r: nat)
    requires r <= |rows|
    ensures MatrixEntries(rows[..r]) <= MatrixEntries(rows)
    decreases |rows| - r
  {
    if r < |rows| {
      MatrixEntriesPrefix(rows, r + 1);
      assert rows[..r + 1][..r] == rows[..r];
    } else {
      assert rows[..r] == rows;
    }
  }

  /** When a processed prefix is followed by an entry out of range, that prefix is all that is applied. */
  lemma {:induction false} AppliedStops(es: seq<Entry>, p: seq<Entry>, e: Entry, n: nat)
    requires p + [e] <= es
    requires forall x :: x in p ==> Within(x, n)
    requires !Within(e, n)
    ensures Applied(es, n) == p
    decreases |p|
  {
    if p != [] {
      assert es[0] == p[0] && es[0] in p;
      assert p[1..] + [e] <= es[1..];
      AppliedStops(es[1..], p[1..], e, n);
    }
  }

  /** When every entry is in range, all are applied. */
  lemma {:induction false} AppliedAll(es: seq<Entry>, n: nat)
    requires forall x :: x in es ==> Within(x, n)
    ensures Applied(es, n) == es
    decreases |es|
  {
    if es != [] {
      assert es[0] in es;
      AppliedAll(es[1..], n);
    }
  }

  /** Entries all in range are applied in full, and the applying goes on after them. */
  lemma {:induction false} AppliedAfter(a: seq<Entry>, b: seq<Entry>, n: nat)
    requires forall x :: x in a ==> Within(x, n)
    ensures Applied(a + b, n) == a + Applied(b, n)
    decreases |a|
  {
    if a == [] {
      assert a + b == b;
    } else {
      assert a[0] in a && (a + b)[0] == a[0];
      assert (a + b)[1..] == a[1..] + b;
      assert forall x :: x in a[1..] ==> x in a;
      AppliedAfter(a[1..], b, n);
      assert a == [a[0]] + a[1..];
    }
  }

  /** Once the applying stops inside `a`, whatever follows `a` is not reached. */
  lemma {:induction false} AppliedStopsInside(a: seq<Entry>, b: seq<Entry>, n: nat)
    requires Applied(a, n) != a
    ensures Applied(a + b, n) == Applied(a, n)
    decreases |a|
  {
    assert a != [];
    assert (a + b)[0] == a[0];
    if Within(a[0], n) {
      assert (a + b)[1..] == a[1..] + b;
      AppliedStopsInside(a[1..], b, n);
    }
  }

  // --------------------------------------------------------------------------
  // Objects: Edge, Vertex, Graph (graph.py:13-82)
  // --------------------------------------------------------------------------

  /** `Edge(neighboor, distance)`: never changed after it is made, so a value. */
  datatype Edge = Edge(neighbor: Vertex, distance: int)

  /**
   * The edges the entries `es` stand for, in their order. An entry whose
   * column names no vertex stands for none; the construction never adds one.
   */
  function EdgesOf(vs: seq<Vertex>, es: seq<Entry>): (r: seq<Edge>)
    ensures |r| <= |es|
    ensures (forall e :: e in es ==> e.column < |vs|) ==> |r| == |es|
    decreases |es|
  {
    if es == [] then []
    else
      var e := es[|es| - 1];
      EdgesOf(vs, es[..|es| - 1]) + (if e.column < |vs| then [Edge(vs[e.column], e.distance)] else [])
  }

  /** The edges of a concatenation are those of its parts. */
  lemma {:induction false} EdgesOfAppend(vs: seq<Vertex>, a: seq<Entry>, b: seq<Entry>)
    ensures EdgesOf(vs, a + b) == EdgesOf(vs, a) + EdgesOf(vs, b)
    decreases |b|
  {
    if b == [] {
      assert a + b == a;
    } else {
      var b', e := b[..|b| - 1], b[|b| - 1];
      var x := if e.column < |vs| then [Edge(vs[e.column], e.distance)] else [];
      assert (a + b)[..|a + b| - 1] == a + b' && (a + b)[|a + b| - 1] == e;
      EdgesOfAppend(vs, a, b');
      assert EdgesOf(vs, a + b) == EdgesOf(vs, a + b') + x;
      assert EdgesOf(vs, b) == EdgesOf(vs, b') + x;
    }
  }

  class Vertex {
    /** `label` (a reserved word in Dafny). */
    var name: string
    var distance: int
    var edges: seq<Edge>
    var visited: bool

    /** `Vertex(label, distance=sys.maxint)`: no edges, not visited. */
    constructor (name: string, distance: int := MaxInt)
      ensures this.name == name && this.distance == distance
      ensures edges == [] && !visited
    {
      this.name := name;
      this.distance := distance;
      edges := [];
      visited := false;
    }

    /** `add_edge`: one edge to `vertex` of weight `dist`, after the existing ones. */
    method AddEdge(vertex: Vertex, dist: int)
      modifies this`edges
      ensures edges == old(edges) + [Edge(vertex, dist)]
    {
      edges := edges + [Edge(vertex, dist)];
    }
  }

  /** No vertex object occurs twice in the list. */
  ghost predicate Distinct(vs: seq<Vertex>) {
    forall i, j :: 0 <= i < j < |vs| ==> vs[i] != vs[j]
  }

  /** In a list without repeats, the vertex at r is at no other position. */
  lemma DistinctAt(vs: seq<Vertex>, r: nat)
    requires Distinct(vs) && r < |vs|
    ensures forall k :: 0 <= k < |vs| && k != r ==> vs[k] != vs[r]
  {
    forall k | 0 <= k < |vs| && k != r ensures vs[k] != vs[r] {
      if k < r {
        assert vs[k] != vs[r];
      } else {
        assert vs[r] != vs[k];
      }
    }
  }

  class Graph {
    var vertexes: seq<Vertex>

    ghost predicate Valid()
      reads this
    {
      Distinct(vertexes)
    }

    constructor ()
      ensures Valid() && vertexes == []
    {
      vertexes := [];
    }

    /**
     * `create_from_file`, with the file given as its rows of integers: append
     * `n` vertices labelled "0".."n-1", then add the edges of the positive
     * entries in row-major order. A positive entry whose row or column index
     * is not that of a vertex raises IndexError, and the edges added before
     * it stay.
     */
    method CreateFromMatrix(n: int, rows: seq<seq<int>>) returns (err: Option<IndexError>)
      requires Valid()
      modifies this`vertexes, vertexes`edges
      ensures Valid()
      ensures |vertexes| == |old(vertexes)| + RangeLength(n) && vertexes[..|old(vertexes)|] == old(vertexes)
      ensures forall k :: |old(vertexes)| <= k < |vertexes| ==>
        fresh(vertexes[k]) && vertexes[k].name == Decimal(k - |old(vertexes)|) &&
        vertexes[k].distance == MaxInt && !vertexes[k].visited
      ensures err.None? <==> Applied(MatrixEntries(rows), |vertexes|) == MatrixEntries(rows)
      ensures forall k :: 0 <= k < |vertexes| ==>
        vertexes[k].edges == (if k < |old(vertexes)| then old(vertexes[k].edges) else []) +
          EdgesOf(vertexes, RowOf(Applied(MatrixEntries(rows), |vertexes|), k))
    {
      AddVertices(n);
      err := AddMatrixEdges(vertexes, rows);
    }

    /** The first loop of `create_from_file`: `Vertex(str(i))` for i in 0..n-1, appended in order. */
    method AddVertices(n: int)
      requires Valid()
      modifies this`vertexes
      ensures Valid()
      ensures |vertexes| == |old(vertexes)| + RangeLength(n) && vertexes[..|old(vertexes)|] == old(vertexes)
      ensures forall k :: |old(vertexes)| <= k < |vertexes| ==>
        fresh(vertexes[k]) && vertexes[k].name == Decimal(k - |old(vertexes)|) &&
        vertexes[k].distance == MaxInt && !vertexes[k].visited && vertexes[k].edges == []
    {
      var start := |vertexes|;
      for i := 0 to RangeLength(n)
        invariant |vertexes| == start + i && vertexes[..start] == old(vertexes)
        invariant Valid()
        invariant forall k :: start <= k < |vertexes| ==>
          fresh(vertexes[k]) && vertexes[k].name == Decimal(k - start) &&
          vertexes[k].distance == MaxInt && !vertexes[k].visited && vertexes[k].edges == []
      {
        var v := new Vertex(Decimal(i));
        vertexes := vertexes + [v];
      }
    }
  }

  /** The nested loops of `create_from_file` over an integer matrix (graph.py:72-82). */
  method AddMatrixEdges(vs: seq<Vertex>, rows: seq<seq<int>>) returns (err: Option<IndexError>)
    requires Distinct(vs)
    modifies vs`edges
    ensures err.None? <==> Applied(MatrixEntries(rows), |vs|) == MatrixEntries(rows)
    ensures forall k :: 0 <= k < |vs| ==>
      vs[k].edges == old(vs[k].edges) + EdgesOf(vs, RowOf(Applied(MatrixEntries(rows), |vs|), k))
  {
    for r := 0 to |rows|
      invariant forall x :: x in MatrixEntries(rows[..r]) ==> Within(x, |vs|)
      invariant forall k :: 0 <= k < |vs| ==>
        vs[k].edges == old(vs[k].edges) + EdgesOf(vs, RowOf(MatrixEntries(rows[..r]), k))
    {
      ghost var before := MatrixEntries(rows[..r]);
      MatrixEntriesNext(rows, r);
      label Row:
      var e := AddRowEdges(vs, r, rows[r]);
      ghost var a := Applied(RowEntries(r, rows[r]), |vs|);
      forall k | 0 <= k < |vs|
        ensures vs[k].edges == old(vs[k].edges) + EdgesOf(vs, RowOf(before + a, k))
      {
        if k == r {
          RowStepHere(vs, before, r, a, old(vs[k].edges));
        } else {
          RowStepElsewhere(vs, before, r, a, k);
        }
      }
      if e.Some? {
        MatrixStopped(rows, r, |vs|);
        return e;
      }
    }
    assert rows[..|rows|] == rows;
    MatrixDone(rows, |vs|);
    err := None;
  }

  /** The entries of the matrix cut after row r are those cut before it followed by the entries of row r. */
  lemma MatrixEntriesNext(rows: seq<seq<int>>, r: nat)
    requires r < |rows|
    ensures MatrixEntries(rows[..r + 1]) == MatrixEntries(rows[..r]) + RowEntries(r, rows[r])
  {
    assert rows[..r + 1][..r] == rows[..r];
  }

  /**
   * After the entries `a` of row r are added on top of the entries `p`, the
   * edges of vertex r, following `pre`, are those of `p` followed by those of `a`.
   */
  lemma RowStepHere(vs: seq<Vertex>, p: seq<Entry>, r: nat, a: seq<Entry>, pre: seq<Edge>)
    requires forall x :: x in a ==> x.row == r
    ensures (pre + EdgesOf(vs, RowOf(p, r))) + EdgesOf(vs, a) == pre + EdgesOf(vs, RowOf(p + a, r))
  {
    RowOfAppend(p, a, r);
    RowOfSingleRow(a, r, r);
    EdgesOfAppend(vs, RowOf(p, r), a);
    Associative(pre, EdgesOf(vs, RowOf(p, r)), EdgesOf(vs, a));
  }

  /** ... and the edges of every other vertex are those of `p` alone. */
  lemma RowStepElsewhere(vs: seq<Vertex>, p: seq<Entry>, r: nat, a: seq<Entry>, k: nat)
    requires forall x :: x in a ==> x.row == r
    requires k != r
    ensures RowOf(p + a, k) == RowOf(p, k)
  {
    RowOfAppend(p, a, k);
    RowOfSingleRow(a, r, k);
    assert RowOf(p, k) + [] == RowOf(p, k);
  }

  /** Concatenation of edge lists is associative (kept apart so that its instances stay local). */
  lemma Associative(a: seq<Edge>, b: seq<Edge>, c: seq<Edge>)
    ensures (a + b) + c == a + (b + c)
  {
  }

  /** Once row r stops short, the applying of the whole matrix stops there too. */
  lemma MatrixStopped(rows: seq<seq<int>>, r: nat, n: nat)
    requires r < |rows|
    requires forall x :: x in MatrixEntries(rows[..r]) ==> Within(x, n)
    requires Applied(RowEntries(r, rows[r]), n) != RowEntries(r, rows[r])
    requires MatrixEntries(rows[..r + 1]) == MatrixEntries(rows[..r]) + RowEntries(r, rows[r])
    ensures Applied(MatrixEntries(rows), n) == MatrixEntries(rows[..r]) + Applied(RowEntries(r, rows[r]), n)
    ensures Applied(MatrixEntries(rows), n) != MatrixEntries(rows)
  {
    var before, es := MatrixEntries(rows[..r]), RowEntries(r, rows[r]);
    MatrixEntriesPrefix(rows, r + 1);
    var all := MatrixEntries(rows);
    assert all == (before + es) + all[|before + es|..];
    AppliedStopsInside(before + es, all[|before + es|..], n);
    AppliedAfter(before, es, n);
  }

  /** When every entry of the matrix names a vertex, all of them are applied. */
  lemma MatrixDone(rows: seq<seq<int>>, n: nat)
    requires forall x :: x in MatrixEntries(rows) ==> Within(x, n)
    ensures Applied(MatrixEntries(rows), n) == MatrixEntries(rows)
  {
    AppliedAll(MatrixEntries(rows), n);
  }

  /**
   * The inner loop of `create_from_file` for row r: an edge for each positive
   * entry, in column order, until one names a missing vertex.
   */
  method AddRowEdges(vs: seq<Vertex>, r: nat, row: seq<int>) returns (err: Option<IndexError>)
    requires Distinct(vs)
    modifies vs`edges
    ensures err.None? <==> Applied(RowEntries(r, row), |vs|) == RowEntries(r, row)
    ensures forall x :: x in Applied(RowEntries(r, row), |vs|) ==> x.row == r
    ensures forall k :: 0 <= k < |vs| && k != r ==> vs[k].edges == old(vs[k].edges)
    ensures r < |vs| ==> vs[r].edges == old(vs[r].edges) + EdgesOf(vs, Applied(RowEntries(r, row), |vs|))
  {
    ghost var start := if r < |vs| then vs[r].edges else [];
    for c := 0 to |row|
      invariant forall x :: x in RowEntries(r, row[..c]) ==> Within(x, |vs|)
      invariant forall k :: 0 <= k < |vs| && k != r ==> vs[k].edges == old(vs[k].edges)
      invariant r < |vs| ==> vs[r].edges == start + EdgesOf(vs, RowEntries(r, row[..c]))
    {
      ghost var done := if r < |vs| then vs[r].edges else [];
      var ok := AddCell(vs, r, c, row[c]);
      RowEntriesNext(r, row, c);
      if !ok {
        RowStopped(r, row, c, |vs|);
        return Some(IndexError);
      }
      if row[c] > 0 {
        EdgesOfNext(vs, RowEntries(r, row[..c]), Entry(r, c, row[c]));
        assert done + [Edge(vs[c], row[c])] == start + (EdgesOf(vs, RowEntries(r, row[..c])) + [Edge(vs[c], row[c])]);
      }
    }
    assert row[..|row|] == row;
    RowDone(r, row, |vs|);
    err := None;
  }

  /**
   * The body of the inner loop of `create_from_file`: a positive entry at
   * row r, column c adds an edge from vertex r to vertex c; `false` stands
   * for the IndexError raised, before any change, when either is missing.
   */
  method AddCell(vs: seq<Vertex>, r: nat, c: nat, dist: int) returns (ok: bool)
    requires Distinct(vs)
    modifies vs`edges
    ensures ok <==> (dist > 0 ==> Within(Entry(r, c, dist), |vs|))
    ensures forall k :: 0 <= k < |vs| && k != r ==> vs[k].edges == old(vs[k].edges)
    ensures r < |vs| ==> vs[r].edges == old(vs[r].edges) + (if dist > 0 && ok then [Edge(vs[c], dist)] else [])
  {
    if dist > 0 {
      if r >= |vs| || c >= |vs| {
        return false;
      }
      DistinctAt(vs, r);
      vs[r].AddEdge(vs[c], dist);
    } else {
      assert r < |vs| ==> vs[r].edges + [] == vs[r].edges;
    }
    ok := true;
  }

  /** The entries of a row cut after column c are those cut before it, and the entry at c when it is positive. */
  lemma RowEntriesNext(i: nat, row: seq<int>, c: nat)
    requires c < |row|
    ensures row[c] > 0 ==> RowEntries(i, row[..c + 1]) == RowEntries(i, row[..c]) + [Entry(i, c, row[c])]
    ensures row[c] <= 0 ==> RowEntries(i, row[..c + 1]) == RowEntries(i, row[..c])
  {
    assert row[..c + 1][..c] == row[..c];
    assert RowEntries(i, row[..c]) + [] == RowEntries(i, row[..c]);
  }

  /** One more entry gives one more edge, when its column names a vertex. */
  lemma EdgesOfNext(vs: seq<Vertex>, es: seq<Entry>, e: Entry)
    requires e.column < |vs|
    ensures EdgesOf(vs, es + [e]) == EdgesOf(vs, es) + [Edge(vs[e.column], e.distance)]
  {
    assert (es + [e])[..|es|] == es;
  }

  /** A positive entry at column c that names a missing vertex ends the row's applying just before it. */
  lemma RowStopped(i: nat, row: seq<int>, c: nat, n: nat)
    requires c < |row| && row[c] > 0 && !Within(Entry(i, c, row[c]), n)
    requires forall x :: x in RowEntries(i, row[..c]) ==> Within(x, n)
    requires RowEntries(i, row[..c + 1]) == RowEntries(i, row[..c]) + [Entry(i, c, row[c])]
    ensures Applied(RowEntries(i, row), n) == RowEntries(i, row[..c])
    ensures Applied(RowEntries(i, row), n) != RowEntries(i, row)
    ensures forall x :: x in Applied(RowEntries(i, row), n) ==> x.row == i
  {
    RowEntriesPrefix(i, row, c + 1);
    AppliedStops(RowEntries(i, row), RowEntries(i, row[..c]), Entry(i, c, row[c]), n);
    RowEntriesExact(i, row);
    assert Entry(i, c, row[c]) in RowEntries(i, row);
  }

  /** When every entry of a row names a vertex, the whole row is applied. */
  lemma RowDone(i: nat, row: seq<int>, n: nat)
    requires forall x :: x in RowEntries(i, row) ==> Within(x, n)
    ensures Applied(RowEntries(i, row), n) == RowEntries(i, row)
    ensures forall x :: x in Applied(RowEntries(i, row), n) ==> x.row == i
  {
    AppliedAll(RowEntries(i, row), n);
    RowEntriesExact(i, row);
  }
}
