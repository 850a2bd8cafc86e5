/**
 * What a non-zero cell of a matrix power means: for an adjacency matrix whose
 * cells are never negative, M^k(i, j) is non-zero exactly when the graph has a
 * walk of exactly k edges from i to j. This is the reading the source's
 * connectivity and distance routines rely on.
 */
module Walks {
  import opened Matrix

  /** Every cell is at least 0 (no negative edge weights). */
  ghost predicate NonNegative(m: seq<int>) {
    forall p :: 0 <= p < |m| ==> m[p] >= 0
  }

  /** There is a walk of exactly k edges from i to j; an edge is a non-zero cell of m. */
  ghost predicate HasWalk(m: seq<int>, n: nat, i: nat, j: nat, k: nat)
    requires |m| == n * n && i < n && j < n
    decreases k
  {
    if k == 0 then i == j
    else exists l :: 0 <= l < n && HasWalk(m, n, i, l, k - 1) && At(m, n, l, j) != 0
  }

  /** A product of two naturals is non-zero exactly when both factors are. */
  lemma ProductNonZero(x: nat, y: nat)
    ensures x * y >= 0
    ensures x * y != 0 <==> x != 0 && y != 0
  {
    if x != 0 && y != 0 {
      MulMonotone(1, x, y);
    }
  }

  /** A partial dot product of non-negative matrices is non-negative, and non-zero exactly when some term is. */
  lemma {:induction false} DotNonNegative(a: seq<int>, b: seq<int>, n: nat, i: nat, j: nat, k: nat)
    requires |a| == n * n && |b| == n * n && i < n && j < n && k <= n
    requires NonNegative(a) && NonNegative(b)
    ensures Dot(a, b, n, i, j, k) >= 0
    ensures Dot(a, b, n, i, j, k) != 0 <==> exists l :: 0 <= l < k && At(a, n, i, l) != 0 && At(b, n, l, j) != 0
    decreases k
  {
    if k > 0 {
      DotNonNegative(a, b, n, i, j, k - 1);
      CellBound(i, k - 1, n);
      CellBound(k - 1, j, n);
      ProductNonZero(At(a, n, i, k - 1), At(b, n, k - 1, j));
    }
  }

  /** Powers of a non-negative matrix are non-negative. */
  lemma {:induction false} PowerNonNegative(m: seq<int>, n: nat, k: nat)
    requires |m| == n * n && NonNegative(m)
    ensures NonNegative(MatPow(m, n, k))
    decreases k
  {
    if k > 0 {
      var prev := MatPow(m, n, k - 1);
      PowerNonNegative(m, n, k - 1);
      forall p | 0 <= p < n * n
        ensures MatPow(m, n, k)[p] >= 0
      {
        var i, j := CellOf(p, n);
        DotNonNegative(prev, m, n, i, j, n);
        MatMulAt(prev, m, n, i, j);
      }
    }
  }

  /** For a non-negative adjacency matrix, M^k(i, j) is non-zero exactly when a walk of k edges leads from i to j. */
  lemma {:induction false} PowerDetectsWalks(m: seq<int>, n: nat, i: nat, j: nat, k: nat)
    requires |m| == n * n && i < n && j < n && NonNegative(m)
    ensures At(MatPow(m, n, k), n, i, j) >= 0
    ensures At(MatPow(m, n, k), n, i, j) != 0 <==> HasWalk(m, n, i, j, k)
    decreases k
  {
    if k > 0 {
      var prev := MatPow(m, n, k - 1);
      PowerNonNegative(m, n, k - 1);
      DotNonNegative(prev, m, n, i, j, n);
      MatMulAt(prev, m, n, i, j);
      forall l | 0 <= l < n
        ensures At(prev, n, i, l) != 0 <==> HasWalk(m, n, i, l, k - 1)
      {
        PowerDetectsWalks(m, n, i, l, k - 1);
      }
    }
  }
}
