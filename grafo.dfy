/**
 * The graph object and its queries. A graph keeps its name, whether it is
 * directed and weighted, its ordered vertex names and its n×n adjacency matrix;
 * none of these change after the graph is built. Every query allocates its own
 * buffers and leaves the graph as it was.
 */
module Grafo {
  import opened Matrix
  import opened Adjacency
  import opened Reach
  import opened Symmetry

  class Graph {
    /** grafo_direcionado */
    const directed: bool
    /** grafo_ponderado: the edges carry a `peso` (weight) attribute. */
    const weighted: bool
    /** grafo_nome */
    const name: string
    /** grafo_vertices; the number of vertices, grafo_n_vertices, is its length. */
    const vertices: seq<string>
    /** grafo_matriz, row-major. */
    const matrix: array<int>

    /**
     * At least one vertex, no more than an `unsigned int` counts, an n×n matrix, and
     * in an undirected graph a symmetric one (each edge stored in both directions).
     */
    ghost predicate Valid()
      reads matrix
    {
      && 1 <= |vertices| < VertexLimit && matrix.Length == |vertices| * |vertices|
      && (!directed ==> Symmetric(matrix[..], |vertices|))
    }

    constructor(name: string, vertices: seq<string>, matrix: array<int>, directed: bool, weighted: bool)
      requires 1 <= |vertices| < VertexLimit && matrix.Length == |vertices| * |vertices|
      requires !directed ==> Symmetric(matrix[..], |vertices|)
      ensures Valid()
      ensures this.name == name && this.vertices == vertices && this.matrix == matrix
      ensures this.directed == directed && this.weighted == weighted
    {
      this.name := name;
      this.vertices := vertices;
      this.matrix := matrix;
      this.directed := directed;
      this.weighted := weighted;
    }

    /**
     * gerar_matriz_distancias: a fresh n×n matrix, Infinity everywhere but the
     * diagonal; then, for each power M^1 .. M^(n-1) in turn, every cell where the
     * power is non-zero and no smaller distance is recorded takes that exponent.
     */
    method DistanceMatrix() returns (dist: array<int>)
      requires Valid()
      ensures fresh(dist)
      ensures dist[..] == Distances(matrix[..], |vertices|)
    {
      var n := |vertices|;
      ghost var m := matrix[..];
      var power;
      power, dist := StartDistances(matrix, n);
      DistanceStart(m, n);
      PowerOne(m, n);
      var i := 0;
      while i < n - 1
        invariant 0 <= i <= n - 1
        invariant power.Length == n * n && power != dist
        invariant power[..] == MatPow(m, n, i + 1)
        invariant forall q :: 0 <= q < n * n ==> dist[q] == DistanceUpTo(m, n, q, i + 1)
      {
        ScanPower(dist, power, m, n, i + 1);
        power := Multiply(power, matrix, n);
        i := i + 1;
      }
      assert dist[..] == Distances(m, n);
    }

    /**
     * conexo: sums M^1 .. M^n into a fresh buffer (one product and one addition per
     * round, n-1 rounds after the copy of M), adds 1 on the diagonal, and answers 0
     * at the first zero cell, 1 when there is none.
     */
    method IsConnected() returns (r: int)
      requires Valid()
      ensures r == 0 || r == 1
      ensures r == 1 <==> Connected(matrix[..], |vertices|)
    {
      var n := |vertices|;
      ghost var m := matrix[..];
      var sum := SumPowers(matrix, n);
      AddIdentity(sum, n);
      assert sum[..] == ReachMatrix(m, n);
      var zero := HasZeroCell(sum, n);
      ConnectedCells(m, n);
      r := if zero then 0 else 1;
    }

    /** fortemente_conexo: the same test; on a directed graph's matrix each arc counts in one direction only. */
    method IsStronglyConnected() returns (r: int)
      requires Valid()
      ensures r == 0 || r == 1
      ensures r == 1 <==> Connected(matrix[..], |vertices|)
    {
      r := IsConnected();
    }

    /** diametro: the largest distance other than Infinity (at least the 0 of the diagonal). */
    method Diameter() returns (r: int)
      requires Valid()
      ensures var d := Distances(matrix[..], |vertices|);
        && 0 <= r < |vertices|
        && (forall p :: 0 <= p < |d| && d[p] != Infinity ==> d[p] <= r)
        && (exists p :: 0 <= p < |d| && d[p] == r)
    {
      var n := |vertices|;
      var dist := DistanceMatrix();
      ghost var d := dist[..];
      assert d[0] == 0;
      r := 0;
      var p := 0;
      while p < n * n
        invariant 0 <= p <= n * n
        invariant 0 <= r < n
        invariant forall q :: 0 <= q < p && d[q] != Infinity ==> d[q] <= r
        invariant exists q :: 0 <= q < n * n && d[q] == r
      {
        if dist[p] != Infinity && r < dist[p] {
          r := dist[p];
        }
        p := p + 1;
      }
    }

    /**
     * distancias: a new weighted graph on the same vertices whose matrix is the
     * distance matrix. Its only zero cells are on the diagonal: every other pair,
     * reachable or not, is joined by an arc, of weight Infinity when unreachable
     * (see DistanceArc). An undirected graph's distance graph is again symmetric.
     */
    method DistanceGraph() returns (g: Graph)
      requires Valid()
      ensures fresh(g) && fresh(g.matrix) && g.Valid()
      ensures g.name == name && g.vertices == vertices && g.directed == directed && g.weighted
      ensures g.matrix[..] == Distances(matrix[..], |vertices|)
      ensures forall i, j :: 0 <= i < |vertices| && 0 <= j < |vertices| ==> (At(g.matrix[..], |vertices|, i, j) == 0 <==> i == j)
    {
      var n := |vertices|;
      var dist := DistanceMatrix();
      forall i, j | 0 <= i < n && 0 <= j < n
        ensures At(dist[..], n, i, j) == 0 <==> i == j
      {
        DistanceArc(matrix[..], n, i, j);
      }
      if !directed {
        DistancesSymmetric(matrix[..], n);
      }
      g := new Graph(name, vertices, dist, directed, true);
    }
  }

  /**
   * The set-up of gerar_matriz_distancias: the power buffer starts as a copy of M,
   * the distance buffer as Infinity everywhere with 0 written on the diagonal.
   */
  method StartDistances(matrix: array<int>, n: nat) returns (power: array<int>, dist: array<int>)
    requires matrix.Length == n * n
    ensures fresh(power) && fresh(dist) && power != dist
    ensures power[..] == matrix[..]
    ensures dist[..] == Diagonal(n, n, 0, Infinity)
  {
    power := new int[n * n];
    dist := new int[n * n];
    var p := 0;
    while p < n * n
      invariant 0 <= p <= n * n
      invariant forall q :: 0 <= q < p ==> power[q] == matrix[q] && dist[q] == Infinity
    {
      power[p] := matrix[p];
      dist[p] := Infinity;
      p := p + 1;
    }
    assert power[..] == matrix[..];
    assert dist[..] == Diagonal(n, 0, 0, Infinity);
    var i := 0;
    while i < n
      invariant 0 <= i <= n
      invariant dist[..] == Diagonal(n, i, 0, Infinity)
      invariant power[..] == matrix[..]
    {
      DiagonalStep(n, i, 0, Infinity);
      dist[i * n + i] := 0;
      i := i + 1;
    }
  }

  /**
   * One round of gerar_matriz_distancias's scan: with power holding M^hi, a cell
   * whose power is non-zero and whose recorded distance exceeds hi records hi.
   */
  method ScanPower(dist: array<int>, power: array<int>, ghost m: seq<int>, n: nat, hi: nat)
    requires dist.Length == n * n && power.Length == n * n && |m| == n * n && dist != power
    requires 1 <= hi && hi + 1 < Infinity
    requires power[..] == MatPow(m, n, hi)
    requires forall q :: 0 <= q < n * n ==> dist[q] == DistanceUpTo(m, n, q, hi)
    modifies dist
    ensures forall q :: 0 <= q < n * n ==> dist[q] == DistanceUpTo(m, n, q, hi + 1)
  {
    ghost var before := dist[..];
    var j := 0;
    while j < n * n
      invariant 0 <= j <= n * n
      invariant forall q :: 0 <= q < j ==> dist[q] == DistanceUpTo(m, n, q, hi + 1)
      invariant forall q :: j <= q < n * n ==> dist[q] == before[q]
    {
      ScanStep(m, n, j, hi, before[j], power[j]);
      if power[j] != 0 && dist[j] > hi {
        dist[j] := hi;
      }
      j := j + 1;
    }
  }

  /** The set-up of conexo: the power buffer and the sum buffer both start as copies of M. */
  method StartSum(matrix: array<int>, n: nat) returns (power: array<int>, sum: array<int>)
    requires matrix.Length == n * n
    ensures fresh(power) && fresh(sum) && power != sum
    ensures power[..] == matrix[..] && sum[..] == matrix[..]
  {
    power := new int[n * n];
    sum := new int[n * n];
    var p := 0;
    while p < n * n
      invariant 0 <= p <= n * n
      invariant forall q :: 0 <= q < p ==> power[q] == matrix[q] && sum[q] == matrix[q]
    {
      power[p] := matrix[p];
      sum[p] := matrix[p];
      p := p + 1;
    }
    assert power[..] == matrix[..] && sum[..] == matrix[..];
  }

  /**
   * The rounds of conexo: starting from copies of M, each round advances the power
   * buffer by one factor of M and adds it into the sum, n-1 rounds in all.
   */
  method SumPowers(matrix: array<int>, n: nat) returns (sum: array<int>)
    requires matrix.Length == n * n && n >= 1
    ensures fresh(sum)
    ensures sum[..] == PowerSum(matrix[..], n, n)
  {
    ghost var m := matrix[..];
    var power;
    power, sum := StartSum(matrix, n);
    PowerOne(m, n);
    PowerSumOne(m, n);
    var i := 0;
    while i < n - 1
      invariant 0 <= i <= n - 1
      invariant power.Length == n * n && power != sum
      invariant power[..] == MatPow(m, n, i + 1)
      invariant sum[..] == PowerSum(m, n, i + 1)
    {
      power := Multiply(power, matrix, n);
      AddInto(sum, power, n);
      i := i + 1;
    }
  }

  /** conexo's M^0 term: adds 1 to every diagonal cell of the sum buffer. */
  method AddIdentity(sum: array<int>, n: nat)
    requires sum.Length == n * n
    modifies sum
    ensures sum[..] == MatAdd(Identity(n), old(sum[..]))
  {
    ghost var powers := sum[..];
    var i := 0;
    while i < n
      invariant 0 <= i <= n
      invariant forall q :: 0 <= q < n * n ==> sum[q] == Diagonal(n, i, 1, 0)[q] + powers[q]
    {
      DiagonalStep(n, i, 1, 0);
      sum[i * n + i] := sum[i * n + i] + 1;
      i := i + 1;
    }
    DiagonalFull(n, 1, 0);
    assert sum[..] == MatAdd(Identity(n), powers);
  }

  /** conexo's final scan, row by row: true at the first zero cell, false when every cell is non-zero. */
  method HasZeroCell(a: array<int>, n: nat) returns (zero: bool)
    requires a.Length == n * n
    ensures zero <==> exists i, j :: 0 <= i < n && 0 <= j < n && At(a[..], n, i, j) == 0
  {
    var i := 0;
    while i < n
      invariant 0 <= i <= n
      invariant forall r, c :: 0 <= r < i && 0 <= c < n ==> At(a[..], n, r, c) != 0
    {
      var j := 0;
      while j < n
        invariant 0 <= j <= n
        invariant forall r, c :: 0 <= r < i && 0 <= c < n ==> At(a[..], n, r, c) != 0
        invariant forall c :: 0 <= c < j ==> At(a[..], n, i, c) != 0
      {
        CellBound(i, j, n);
        if a[i * n + j] == 0 {
          assert At(a[..], n, i, j) == 0;
          return true;
        }
        j := j + 1;
      }
      i := i + 1;
    }
    return false;
  }

  /**
   * le_grafo after the description has been parsed: the graph's name, its vertex
   * names in order, its edges in visiting order and its two flags. No graph (the
   * source's NULL) when there is no vertex or an edge names an unknown vertex.
   */
  method ReadGraph(name: string, vertices: seq<string>, edges: seq<Edge>, directed: bool, weighted: bool) returns (g: Graph?)
    requires |vertices| < VertexLimit
    ensures g == null <==> Build(vertices, edges, weighted, directed).None?
    ensures g != null ==> fresh(g) && fresh(g.matrix) && g.Valid()
    ensures g != null ==> g.name == name && g.vertices == vertices && g.directed == directed && g.weighted == weighted
    ensures g != null ==> g.matrix[..] == Build(vertices, edges, weighted, directed).value
  {
    var m := BuildAdjacency(vertices, edges, weighted, directed);
    if m == null {
      return null;
    }
    if !directed {
      forall i, j | 0 <= i < |vertices| && 0 <= j < |vertices|
        ensures At(m[..], |vertices|, i, j) == At(m[..], |vertices|, j, i)
      {
        BuildSymmetric(vertices, edges, weighted, directed, i, j);
      }
    }
    g := new Graph(name, vertices, m, directed, weighted);
  }
}
