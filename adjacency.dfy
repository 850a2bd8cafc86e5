/**
 * The adjacency-matrix builder. The graph-description library's edge iterator is
 * abstracted to a sequence of edges, each with the names of its tail and head and
 * its weight attribute already parsed (None when the attribute is absent or empty).
 * The matrix starts all zero; each edge writes its cell, and in an undirected graph
 * also the mirrored cell, so a later edge overwrites an earlier one on the same cell.
 * An edge naming an unknown vertex makes the whole build fail.
 */
module Adjacency {
  import opened Wrappers
  import opened Matrix
  import opened Vertices

  datatype Edge = Edge(tail: string, head: string, weight: Option<int>)

  /** The value an edge stores: its weight (0 when it has none) in a weighted graph, 1 otherwise. */
  function EdgeValue(e: Edge, weighted: bool): int {
    if weighted then
      match e.weight
      case Some(w) => w
      case None => 0
    else 1
  }

  /** Both endpoints of the edge are vertices of the table. */
  predicate Resolves(names: seq<string>, e: Edge) {
    e.tail in names && e.head in names
  }

  /** The matrix after storing v at (t, h), and also at (h, t) when the graph is undirected. */
  function Write(m: seq<int>, n: nat, t: nat, h: nat, v: int, directed: bool): (r: seq<int>)
    requires |m| == n * n && t < n && h < n
    ensures |r| == n * n
  {
    CellBound(t, h, n);
    CellBound(h, t, n);
    var written := m[t * n + h := v];
    if directed then written else written[h * n + t := v]
  }

  /** The matrix after processing the edges in order from the all-zero matrix, or None once an edge does not resolve. */
  function Fill(names: seq<string>, edges: seq<Edge>, weighted: bool, directed: bool): (r: Option<seq<int>>)
    ensures r.Some? <==> forall k :: 0 <= k < |edges| ==> Resolves(names, edges[k])
    ensures r.Some? ==> |r.value| == |names| * |names|
    decreases |edges|
  {
    var n := |names|;
    if |edges| == 0 then Some(Zero(n))
    else
      var prefix, e := edges[..|edges| - 1], edges[|edges| - 1];
      assert forall k :: 0 <= k < |prefix| ==> prefix[k] == edges[k];
      match Fill(names, prefix, weighted, directed)
      case None => None
      case Some(m) =>
        var t, h := IndexOf(names, e.tail), IndexOf(names, e.head);
        if t == -1 || h == -1 then None
        else Some(Write(m, n, t, h, EdgeValue(e, weighted), directed))
  }

  /**
   * The matrix the source builds for a vertex table and an edge list: None (the
   * source's NULL) when the table is empty or some edge has an unknown endpoint.
   */
  function Build(names: seq<string>, edges: seq<Edge>, weighted: bool, directed: bool): (r: Option<seq<int>>)
    ensures r.Some? <==> |names| > 0 && forall k :: 0 <= k < |edges| ==> Resolves(names, edges[k])
    ensures r.Some? ==> |r.value| == |names| * |names|
  {
    if |names| == 0 then None else Fill(names, edges, weighted, directed)
  }

  /** The edge writes cell (i, j): it goes from i to j, or from j to i in an undirected graph. */
  predicate Writes(names: seq<string>, e: Edge, directed: bool, i: nat, j: nat) {
    var t, h := IndexOf(names, e.tail), IndexOf(names, e.head);
    (t == i && h == j) || (!directed && t == j && h == i)
  }

  /** The position of the last edge that writes cell (i, j), or -1 when none does (see LastWriterIsLast). */
  function LastWriter(names: seq<string>, edges: seq<Edge>, directed: bool, i: nat, j: nat): (r: int)
    ensures -1 <= r < |edges|
    decreases |edges|
  {
    if |edges| == 0 then -1
    else if Writes(names, edges[|edges| - 1], directed, i, j) then |edges| - 1
    else LastWriter(names, edges[..|edges| - 1], directed, i, j)
  }

  /** LastWriter finds the last edge that writes the cell, and -1 only when no edge does. */
  lemma {:induction false} LastWriterIsLast(names: seq<string>, edges: seq<Edge>, directed: bool, i: nat, j: nat)
    ensures var r := LastWriter(names, edges, directed, i, j);
      && (r == -1 <==> forall k :: 0 <= k < |edges| ==> !Writes(names, edges[k], directed, i, j))
      && (r >= 0 ==> Writes(names, edges[r], directed, i, j))
      && (r >= 0 ==> forall k :: r < k < |edges| ==> !Writes(names, edges[k], directed, i, j))
    decreases |edges|
  {
    if |edges| > 0 && !Writes(names, edges[|edges| - 1], directed, i, j) {
      var prefix := edges[..|edges| - 1];
      LastWriterIsLast(names, prefix, directed, i, j);
      var r := LastWriter(names, prefix, directed, i, j);
      assert LastWriter(names, edges, directed, i, j) == r;
      forall k | 0 <= k < |edges|
        ensures Writes(names, edges[k], directed, i, j) ==> k < |prefix| && Writes(names, prefix[k], directed, i, j)
      {
        if k < |prefix| {
          assert prefix[k] == edges[k];
        }
      }
    }
  }

  /** Write changes exactly the written cell and, when undirected, its mirror. */
  lemma WriteCell(m: seq<int>, n: nat, t: nat, h: nat, v: int, directed: bool, i: nat, j: nat)
    requires |m| == n * n && t < n && h < n && i < n && j < n
    ensures At(Write(m, n, t, h, v, directed), n, i, j)
      == if (t == i && h == j) || (!directed && t == j && h == i) then v else At(m, n, i, j)
  {
    CellBound(i, j, n);
    CellBound(t, h, n);
    CellBound(h, t, n);
    var p, q, r := i * n + j, t * n + h, h * n + t;
    CellIndexInjective(i, j, t, h, n);
    CellIndexInjective(i, j, h, t, n);
    assert p == q <==> t == i && h == j;
    assert p == r <==> t == j && h == i;
    var written := m[q := v];
    assert written[p] == if p == q then v else m[p];
    if !directed {
      assert written[r := v][p] == if p == r then v else written[p];
    }
  }

  /** When every edge resolves, the last edge is written over the matrix built from the others. */
  lemma FillLast(names: seq<string>, edges: seq<Edge>, weighted: bool, directed: bool)
    requires |edges| > 0 && Fill(names, edges, weighted, directed).Some?
    ensures var e := edges[|edges| - 1];
      var t, h := IndexOf(names, e.tail), IndexOf(names, e.head);
      && Fill(names, edges[..|edges| - 1], weighted, directed).Some?
      && 0 <= t < |names| && 0 <= h < |names|
      && Fill(names, edges, weighted, directed).value
         == Write(Fill(names, edges[..|edges| - 1], weighted, directed).value, |names|, t, h, EdgeValue(e, weighted), directed)
  {
  }

  /** Before any edge is processed the matrix is all zero. */
  lemma FillStart(names: seq<string>, edges: seq<Edge>, weighted: bool, directed: bool)
    ensures Fill(names, edges[..0], weighted, directed) == Some(Zero(|names|))
  {
    assert edges[..0] == [];
  }

  /** An edge with an unknown endpoint makes the build fail. */
  lemma BuildFails(names: seq<string>, edges: seq<Edge>, weighted: bool, directed: bool, k: nat)
    requires k < |edges| && (IndexOf(names, edges[k].tail) == -1 || IndexOf(names, edges[k].head) == -1)
    ensures Build(names, edges, weighted, directed).None?
  {
    assert !Resolves(names, edges[k]);
  }

  /** Once every edge is processed the result is the built matrix. */
  lemma FillEnd(names: seq<string>, edges: seq<Edge>, weighted: bool, directed: bool, m: seq<int>)
    requires |names| > 0 && Fill(names, edges[..|edges|], weighted, directed) == Some(m)
    ensures Build(names, edges, weighted, directed) == Some(m)
  {
    assert edges[..|edges|] == edges;
  }

  /** Processing edge k, whose endpoints resolve to t and h, extends the matrix built from the edges before it. */
  lemma FillStep(names: seq<string>, edges: seq<Edge>, weighted: bool, directed: bool, k: nat, m: seq<int>, t: int, h: int)
    requires k < |edges| && Fill(names, edges[..k], weighted, directed) == Some(m)
    requires t == IndexOf(names, edges[k].tail) && h == IndexOf(names, edges[k].head) && t != -1 && h != -1
    ensures |m| == |names| * |names| && 0 <= t < |names| && 0 <= h < |names|
    ensures Fill(names, edges[..k + 1], weighted, directed) == Some(Write(m, |names|, t, h, EdgeValue(edges[k], weighted), directed))
  {
    assert edges[..k + 1][..k] == edges[..k];
  }

  /**
   * Every cell of a built matrix is 0 when no edge writes it, and otherwise holds
   * the value of the last edge that writes it (last write wins).
   */
  lemma {:induction false} FillCell(names: seq<string>, edges: seq<Edge>, weighted: bool, directed: bool, i: nat, j: nat)
    requires Fill(names, edges, weighted, directed).Some?
    requires i < |names| && j < |names|
    ensures var k := LastWriter(names, edges, directed, i, j);
      At(Fill(names, edges, weighted, directed).value, |names|, i, j) == if k == -1 then 0 else EdgeValue(edges[k], weighted)
    decreases |edges|
  {
    var n := |names|;
    CellBound(i, j, n);
    if |edges| == 0 {
      assert At(Zero(n), n, i, j) == 0;
    } else {
      var prefix := edges[..|edges| - 1];
      var e := edges[|edges| - 1];
      var t, h := IndexOf(names, e.tail), IndexOf(names, e.head);
      FillLast(names, edges, weighted, directed);
      var prev := Fill(names, prefix, weighted, directed).value;
      var cur := Fill(names, edges, weighted, directed).value;
      assert cur == Write(prev, n, t, h, EdgeValue(e, weighted), directed);
      FillCell(names, prefix, weighted, directed, i, j);
      WriteCell(prev, n, t, h, EdgeValue(e, weighted), directed, i, j);
      var last := LastWriter(names, edges, directed, i, j);
      if Writes(names, e, directed, i, j) {
        assert last == |edges| - 1;
        assert At(cur, n, i, j) == EdgeValue(edges[last], weighted);
      } else {
        var earlier := LastWriter(names, prefix, directed, i, j);
        assert last == earlier;
        assert At(cur, n, i, j) == At(prev, n, i, j);
        assert earlier >= 0 ==> prefix[earlier] == edges[earlier];
      }
    }
  }

  /** A built matrix has n*n cells, each 0 or the value of the last edge written to it. */
  lemma BuildCell(names: seq<string>, edges: seq<Edge>, weighted: bool, directed: bool, i: nat, j: nat)
    requires Build(names, edges, weighted, directed).Some?
    requires i < |names| && j < |names|
    ensures |Build(names, edges, weighted, directed).value| == |names| * |names|
    ensures var k := LastWriter(names, edges, directed, i, j);
      At(Build(names, edges, weighted, directed).value, |names|, i, j) == if k == -1 then 0 else EdgeValue(edges[k], weighted)
  {
    FillCell(names, edges, weighted, directed, i, j);
  }

  /** In an undirected graph the built matrix is symmetric. */
  lemma BuildSymmetric(names: seq<string>, edges: seq<Edge>, weighted: bool, directed: bool, i: nat, j: nat)
    requires Build(names, edges, weighted, directed).Some? && !directed
    requires i < |names| && j < |names|
    ensures var m := Build(names, edges, weighted, directed).value;
      At(m, |names|, i, j) == At(m, |names|, j, i)
  {
    BuildCell(names, edges, weighted, directed, i, j);
    BuildCell(names, edges, weighted, directed, j, i);
    LastWriterIsLast(names, edges, directed, i, j);
    LastWriterIsLast(names, edges, directed, j, i);
    var a, b := LastWriter(names, edges, directed, i, j), LastWriter(names, edges, directed, j, i);
    assert forall k :: 0 <= k < |edges| ==> (Writes(names, edges[k], directed, i, j) <==> Writes(names, edges[k], directed, j, i));
    assert a == b;
  }

  /** In an unweighted graph a built cell is 1 exactly when some edge writes it, and 0 otherwise. */
  lemma UnweightedCell(names: seq<string>, edges: seq<Edge>, directed: bool, i: nat, j: nat)
    requires Build(names, edges, false, directed).Some?
    requires i < |names| && j < |names|
    ensures var m := Build(names, edges, false, directed).value;
      (At(m, |names|, i, j) == 1 <==> exists k :: 0 <= k < |edges| && Writes(names, edges[k], directed, i, j))
      && (At(m, |names|, i, j) == 0 <==> forall k :: 0 <= k < |edges| ==> !Writes(names, edges[k], directed, i, j))
  {
    BuildCell(names, edges, false, directed, i, j);
    LastWriterIsLast(names, edges, directed, i, j);
  }

  /**
   * The cell store of obter_matriz_adjacencia for one resolved edge: the weight (or 0)
   * in a weighted graph, 1 otherwise, copied to the mirrored cell when undirected.
   */
  method StoreEdge(m: array<int>, n: nat, t: nat, h: nat, e: Edge, weighted: bool, directed: bool)
    requires m.Length == n * n && t < n && h < n
    modifies m
    ensures m[..] == Write(old(m[..]), n, t, h, EdgeValue(e, weighted), directed)
  {
    CellBound(t, h, n);
    CellBound(h, t, n);
    var cell, mirror := t * n + h, h * n + t;
    if weighted {
      m[cell] := match e.weight case Some(w) => w case None => 0;
    } else {
      m[cell] := 1;
    }
    if !directed {
      m[mirror] := m[cell];
    }
  }

  /** obter_matriz_adjacencia: zero-fills a fresh n×n array, then writes one cell (two when undirected) per edge. */
  method BuildAdjacency(names: seq<string>, edges: seq<Edge>, weighted: bool, directed: bool) returns (m: array?<int>)
    ensures m == null <==> Build(names, edges, weighted, directed).None?
    ensures m != null ==> fresh(m) && m[..] == Build(names, edges, weighted, directed).value
  {
    var n := |names|;
    if n == 0 {
      return null;
    }
    m := new int[n * n];
    var i := 0;
    while i < n * n
      invariant 0 <= i <= n * n
      invariant forall p :: 0 <= p < i ==> m[p] == 0
    {
      m[i] := 0;
      i := i + 1;
    }
    assert m[..] == Zero(n);
    FillStart(names, edges, weighted, directed);
    var k := 0;
    while k < |edges|
      invariant 0 <= k <= |edges|
      invariant Fill(names, edges[..k], weighted, directed) == Some(m[..])
    {
      var e := edges[k];
      var t := FindVertex(names, e.tail);
      var h := FindVertex(names, e.head);
      if t == -1 || h == -1 {
        BuildFails(names, edges, weighted, directed, k);
        return null;
      }
      ghost var before := m[..];
      StoreEdge(m, n, t, h, e, weighted, directed);
      FillStep(names, edges, weighted, directed, k, before, t, h);
      k := k + 1;
    }
    FillEnd(names, edges, weighted, directed, m[..]);
  }
}
