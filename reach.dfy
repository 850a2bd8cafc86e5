/**
 * The specifications of the connectivity and distance queries, stated over an
 * adjacency matrix m of n vertices:
 *  - the reachability matrix I + M + M^2 + ... + M^n, whose cells must all be
 *    non-zero for the graph to count as connected;
 *  - the hop-distance matrix: 0 on the diagonal, elsewhere the least k in 1..n-1
 *    with M^k non-zero at that cell, or the sentinel Infinity when there is none.
 * For a matrix with no negative cells both are tied to walks in the graph.
 */
module Reach {
  import opened Matrix
  import opened Walks
  import opened Symmetry

  /** The source's `infinito`: LONG_MAX, the distance recorded for an unreachable vertex. */
  const Infinity: int := 0x7FFF_FFFF_FFFF_FFFF

  /** Vertex counts are `unsigned int` in the source, so every finite distance (at most n-1) is below Infinity. */
  const VertexLimit: int := 0x1_0000_0000

  /** M^1 + M^2 + ... + M^k (the zero matrix when k = 0). */
  function PowerSum(m: seq<int>, n: nat, k: nat): (s: seq<int>)
    requires |m| == n * n
    ensures |s| == n * n
    decreases k
  {
    if k == 0 then Zero(n) else MatAdd(PowerSum(m, n, k - 1), MatPow(m, n, k))
  }

  /** The sum of the first power alone is the matrix itself, so a copy of m is a valid starting sum buffer. */
  lemma PowerSumOne(m: seq<int>, n: nat)
    requires |m| == n * n
    ensures PowerSum(m, n, 1) == m
  {
    PowerOne(m, n);
    assert MatAdd(Zero(n), m) == m;
  }

  /**
   * I + M + M^2 + ... + M^n: the source starts its sum at M^1 and adds one more
   * power in each of n-1 rounds, then adds 1 on the diagonal.
   */
  function ReachMatrix(m: seq<int>, n: nat): (r: seq<int>)
    requires |m| == n * n
    ensures |r| == n * n
  {
    MatAdd(Identity(n), PowerSum(m, n, n))
  }

  /** The source's connectivity criterion: no cell of the reachability matrix is zero. */
  predicate Connected(m: seq<int>, n: nat)
    requires |m| == n * n
  {
    forall p :: 0 <= p < n * n ==> ReachMatrix(m, n)[p] != 0
  }

  /** For a non-negative matrix, a cell of M^1 + ... + M^k is non-zero exactly when some walk of 1..k edges joins the two vertices. */
  lemma {:induction false} PowerSumCell(m: seq<int>, n: nat, k: nat, i: nat, j: nat)
    requires |m| == n * n && i < n && j < n && NonNegative(m)
    ensures At(PowerSum(m, n, k), n, i, j) >= 0
    ensures At(PowerSum(m, n, k), n, i, j) != 0 <==> exists t :: 1 <= t <= k && HasWalk(m, n, i, j, t)
    decreases k
  {
    CellBound(i, j, n);
    if k > 0 {
      PowerSumCell(m, n, k - 1, i, j);
      PowerDetectsWalks(m, n, i, j, k);
    }
  }

  /** The criterion read cell by cell, as the source's final nested scan reads it. */
  lemma ConnectedCells(m: seq<int>, n: nat)
    requires |m| == n * n
    ensures Connected(m, n) <==> forall i, j :: 0 <= i < n && 0 <= j < n ==> At(ReachMatrix(m, n), n, i, j) != 0
  {
    var r := ReachMatrix(m, n);
    if !Connected(m, n) {
      var p :| 0 <= p < n * n && r[p] == 0;
      var i, j := CellOf(p, n);
      assert At(r, n, i, j) == 0;
    } else {
      forall i, j | 0 <= i < n && 0 <= j < n
        ensures At(r, n, i, j) != 0
      {
        CellBound(i, j, n);
      }
    }
  }

  /** Some walk of at most `bound` edges leads from i to j (the walk of 0 edges when i = j). */
  ghost predicate WalkWithin(m: seq<int>, n: nat, i: nat, j: nat, bound: nat)
    requires |m| == n * n && i < n && j < n
  {
    exists k :: 0 <= k <= bound && HasWalk(m, n, i, j, k)
  }

  /** Cell (i, j) of the reachability matrix: the identity's cell plus the sum of the powers 1..n. */
  lemma ReachMatrixCell(m: seq<int>, n: nat, i: nat, j: nat)
    requires |m| == n * n && i < n && j < n
    ensures At(ReachMatrix(m, n), n, i, j) == (if i == j then 1 else 0) + At(PowerSum(m, n, n), n, i, j)
  {
    CellBound(i, j, n);
    assert At(Identity(n), n, i, j) == if i == j then 1 else 0;
  }

  /** A walk of at most `bound` edges is either the empty walk (i = j) or one of 1..bound edges. */
  lemma WalkWithinSplit(m: seq<int>, n: nat, i: nat, j: nat, bound: nat)
    requires |m| == n * n && i < n && j < n
    ensures i == j ==> WalkWithin(m, n, i, j, bound)
    ensures i != j ==> (WalkWithin(m, n, i, j, bound) <==> exists t :: 1 <= t <= bound && HasWalk(m, n, i, j, t))
  {
    if i == j {
      assert HasWalk(m, n, i, j, 0);
    } else if WalkWithin(m, n, i, j, bound) {
      var k :| 0 <= k <= bound && HasWalk(m, n, i, j, k);
      assert k != 0;
      assert exists t :: 1 <= t <= bound && HasWalk(m, n, i, j, t) by {
        assert 1 <= k <= bound && HasWalk(m, n, i, j, k);
      }
    } else {
      forall t | 1 <= t <= bound
        ensures !HasWalk(m, n, i, j, t)
      {
        assert 0 <= t <= bound;
      }
    }
  }

  /** For a non-negative matrix, a cell of the reachability matrix is non-zero exactly when a walk of at most n edges exists. */
  lemma ReachCell(m: seq<int>, n: nat, i: nat, j: nat)
    requires |m| == n * n && i < n && j < n && NonNegative(m)
    ensures At(ReachMatrix(m, n), n, i, j) != 0 <==> WalkWithin(m, n, i, j, n)
  {
    ReachMatrixCell(m, n, i, j);
    PowerSumCell(m, n, n, i, j);
    WalkWithinSplit(m, n, i, j, n);
  }

  /** In a connected graph every ordered pair of vertices is joined by a walk of at most n edges. */
  lemma ConnectedReaches(m: seq<int>, n: nat, i: nat, j: nat)
    requires |m| == n * n && i < n && j < n && NonNegative(m)
    requires Connected(m, n)
    ensures WalkWithin(m, n, i, j, n)
  {
    CellBound(i, j, n);
    assert At(ReachMatrix(m, n), n, i, j) != 0;
    ReachCell(m, n, i, j);
  }

  /** A zero cell of the reachability matrix names a pair of vertices that no walk of at most n edges joins. */
  lemma DisconnectedPair(m: seq<int>, n: nat)
    requires |m| == n * n && NonNegative(m)
    requires !Connected(m, n)
    ensures exists i, j :: 0 <= i < n && 0 <= j < n && !WalkWithin(m, n, i, j, n)
  {
    var r := ReachMatrix(m, n);
    var p :| 0 <= p < n * n && r[p] == 0;
    var i, j := CellOf(p, n);
    assert At(r, n, i, j) == 0;
    ReachCell(m, n, i, j);
  }

  /**
   * For a non-negative adjacency matrix the source's criterion means what it is
   * meant to: every vertex reaches every vertex (itself included) by a walk of at
   * most n edges.
   */
  lemma ConnectedIffWalks(m: seq<int>, n: nat)
    requires |m| == n * n && NonNegative(m)
    ensures Connected(m, n) <==> forall i, j :: 0 <= i < n && 0 <= j < n ==> WalkWithin(m, n, i, j, n)
  {
    if Connected(m, n) {
      forall i, j | 0 <= i < n && 0 <= j < n
        ensures WalkWithin(m, n, i, j, n)
      {
        ConnectedReaches(m, n, i, j);
      }
    } else {
      DisconnectedPair(m, n);
    }
  }

  /** The least t in lo..hi-1 with M^t non-zero at flat index p, or Infinity when there is none. */
  function LeastPower(m: seq<int>, n: nat, p: nat, lo: nat, hi: nat): (r: int)
    requires |m| == n * n && p < n * n && hi < Infinity
    ensures r == Infinity || lo <= r < hi
    ensures r == Infinity ==> forall t :: lo <= t < hi ==> MatPow(m, n, t)[p] == 0
    ensures r != Infinity ==> MatPow(m, n, r)[p] != 0 && forall t :: lo <= t < r ==> MatPow(m, n, t)[p] == 0
    decreases hi - lo
  {
    if lo >= hi then Infinity
    else if MatPow(m, n, lo)[p] != 0 then lo
    else LeastPower(m, n, p, lo + 1, hi)
  }

  /** Widening the search range by one power keeps an earlier hit and otherwise tries the new power. */
  lemma LeastPowerStep(m: seq<int>, n: nat, p: nat, lo: nat, hi: nat)
    requires |m| == n * n && p < n * n && lo <= hi && hi + 1 < Infinity
    ensures LeastPower(m, n, p, lo, hi + 1) ==
      if LeastPower(m, n, p, lo, hi) != Infinity then LeastPower(m, n, p, lo, hi)
      else if MatPow(m, n, hi)[p] != 0 then hi
      else Infinity
  {
    var a, b := LeastPower(m, n, p, lo, hi), LeastPower(m, n, p, lo, hi + 1);
    if a != Infinity {
      assert MatPow(m, n, a)[p] != 0;
      if b != Infinity {
        assert MatPow(m, n, b)[p] != 0;
      }
    }
  }

  /** The distance of a cell once powers below hi have been scanned: 0 on the diagonal, otherwise the least hit so far. */
  function DistanceUpTo(m: seq<int>, n: nat, p: nat, hi: nat): int
    requires |m| == n * n && p < n * n && hi < Infinity
  {
    if p / n == p % n then 0 else LeastPower(m, n, p, 1, hi)
  }

  /** Before any power is scanned, the distance buffer is 0 on the diagonal and Infinity elsewhere. */
  lemma DistanceStart(m: seq<int>, n: nat)
    requires |m| == n * n
    ensures forall p :: 0 <= p < n * n ==> Diagonal(n, n, 0, Infinity)[p] == DistanceUpTo(m, n, p, 1)
  {
    DiagonalFull(n, 0, Infinity);
  }

  /**
   * One cell of the source's scan of power hi: the cell takes hi when the power is
   * non-zero there and its recorded distance exceeds hi. This turns the distance
   * over powers below hi into the distance over powers up to hi.
   */
  lemma ScanStep(m: seq<int>, n: nat, p: nat, hi: nat, cur: int, power: int)
    requires |m| == n * n && p < n * n && 1 <= hi && hi + 1 < Infinity
    requires cur == DistanceUpTo(m, n, p, hi) && power == MatPow(m, n, hi)[p]
    ensures (if power != 0 && cur > hi then hi else cur) == DistanceUpTo(m, n, p, hi + 1)
  {
    LeastPowerStep(m, n, p, 1, hi);
  }

  /** The all-pairs hop-distance matrix. */
  function Distances(m: seq<int>, n: nat): (d: seq<int>)
    requires |m| == n * n && 1 <= n < VertexLimit
    ensures |d| == n * n
    ensures forall p :: 0 <= p < n * n ==> d[p] == Infinity || 0 <= d[p] < n
  {
    seq(n * n, p requires 0 <= p < n * n => DistanceUpTo(m, n, p, n))
  }

  /**
   * Cell (i, j) of the distance matrix: 0 when i = j; otherwise the least k in
   * 1..n-1 with M^k(i, j) non-zero, or Infinity when every such power is zero there.
   */
  lemma DistanceCell(m: seq<int>, n: nat, i: nat, j: nat)
    requires |m| == n * n && 1 <= n < VertexLimit && i < n && j < n
    ensures var d := At(Distances(m, n), n, i, j);
      && (i == j ==> d == 0)
      && (i != j && d == Infinity ==> forall k :: 1 <= k < n ==> At(MatPow(m, n, k), n, i, j) == 0)
      && (i != j && d != Infinity ==>
            1 <= d < n && At(MatPow(m, n, d), n, i, j) != 0
            && forall k :: 1 <= k < d ==> At(MatPow(m, n, k), n, i, j) == 0)
  {
    CellIndex(i, j, n);
  }

  /**
   * For a non-negative adjacency matrix, cell (i, j) of the distance matrix is
   * Infinity exactly when no walk of at most n-1 edges leads from i to j, and
   * otherwise the number of edges of a shortest such walk.
   */
  lemma DistanceIsShortestWalk(m: seq<int>, n: nat, i: nat, j: nat)
    requires |m| == n * n && 1 <= n < VertexLimit && i < n && j < n && NonNegative(m)
    ensures var d := At(Distances(m, n), n, i, j);
      && (d == Infinity <==> !WalkWithin(m, n, i, j, n - 1))
      && (d != Infinity ==> 0 <= d < n && HasWalk(m, n, i, j, d) && forall k :: 0 <= k < d ==> !HasWalk(m, n, i, j, k))
  {
    var d := At(Distances(m, n), n, i, j);
    DistanceCell(m, n, i, j);
    if i == j {
      assert HasWalk(m, n, i, j, 0);
    } else if d == Infinity {
      forall k | 0 <= k < n
        ensures !HasWalk(m, n, i, j, k)
      {
        if k > 0 {
          PowerDetectsWalks(m, n, i, j, k);
        }
      }
    } else {
      PowerDetectsWalks(m, n, i, j, d);
      forall k | 0 <= k < d
        ensures !HasWalk(m, n, i, j, k)
      {
        if k > 0 {
          PowerDetectsWalks(m, n, i, j, k);
        }
      }
      assert 0 <= d <= n - 1 && HasWalk(m, n, i, j, d);
    }
  }

  /**
   * The arcs of the distance graph: a cell is 0 exactly on the diagonal, so every
   * ordered pair of distinct vertices gets a non-zero cell, reachable or not. For a
   * non-negative adjacency matrix that cell is Infinity exactly when no walk of at
   * most n-1 edges joins the pair.
   */
  lemma DistanceArc(m: seq<int>, n: nat, i: nat, j: nat)
    requires |m| == n * n && 1 <= n < VertexLimit && i < n && j < n
    ensures At(Distances(m, n), n, i, j) == 0 <==> i == j
    ensures NonNegative(m) && i != j ==> (At(Distances(m, n), n, i, j) == Infinity <==> !WalkWithin(m, n, i, j, n - 1))
  {
    DistanceCell(m, n, i, j);
    if NonNegative(m) {
      DistanceIsShortestWalk(m, n, i, j);
    }
  }

  /** Two cells on which every power in lo..hi-1 agrees have the same least non-zero power. */
  lemma {:induction false} LeastPowerSame(m: seq<int>, n: nat, p: nat, q: nat, lo: nat, hi: nat)
    requires |m| == n * n && p < n * n && q < n * n && hi < Infinity
    requires forall t :: lo <= t < hi ==> MatPow(m, n, t)[p] == MatPow(m, n, t)[q]
    ensures LeastPower(m, n, p, lo, hi) == LeastPower(m, n, q, lo, hi)
    decreases hi - lo
  {
    if lo < hi {
      assert MatPow(m, n, lo)[p] == MatPow(m, n, lo)[q];
      LeastPowerSame(m, n, p, q, lo + 1, hi);
    }
  }

  /** For a symmetric matrix, every power agrees at (i, j) and at (j, i). */
  lemma PowersAgree(m: seq<int>, n: nat, i: nat, j: nat, hi: nat)
    requires |m| == n * n && i < n && j < n && Symmetric(m, n)
    ensures 0 <= i * n + j < n * n && 0 <= j * n + i < n * n
    ensures forall t :: 0 <= t < hi ==> MatPow(m, n, t)[i * n + j] == MatPow(m, n, t)[j * n + i]
  {
    CellBound(i, j, n);
    CellBound(j, i, n);
    forall t | 0 <= t < hi
      ensures MatPow(m, n, t)[i * n + j] == MatPow(m, n, t)[j * n + i]
    {
      PowerSymmetric(m, n, t);
      assert At(MatPow(m, n, t), n, i, j) == At(MatPow(m, n, t), n, j, i);
    }
  }

  /** One pair of cells of the distance matrix of a symmetric adjacency matrix. */
  lemma DistanceSymmetricCell(m: seq<int>, n: nat, i: nat, j: nat)
    requires |m| == n * n && 1 <= n < VertexLimit && i < n && j < n && Symmetric(m, n)
    ensures At(Distances(m, n), n, i, j) == At(Distances(m, n), n, j, i)
  {
    var p, q := i * n + j, j * n + i;
    CellIndex(i, j, n);
    CellIndex(j, i, n);
    PowersAgree(m, n, i, j, n);
    LeastPowerSame(m, n, p, q, 1, n);
    assert At(Distances(m, n), n, i, j) == DistanceUpTo(m, n, p, n);
    assert At(Distances(m, n), n, j, i) == DistanceUpTo(m, n, q, n);
  }

  /** The distance matrix of a symmetric (undirected) adjacency matrix is symmetric. */
  lemma DistancesSymmetric(m: seq<int>, n: nat)
    requires |m| == n * n && 1 <= n < VertexLimit && Symmetric(m, n)
    ensures Symmetric(Distances(m, n), n)
  {
    forall i, j | 0 <= i < n && 0 <= j < n
      ensures At(Distances(m, n), n, i, j) == At(Distances(m, n), n, j, i)
    {
      DistanceSymmetricCell(m, n, i, j);
    }
  }
}
