/**
 * Symmetric matrices and their powers. An undirected graph's adjacency matrix is
 * symmetric; every power of a symmetric matrix is symmetric too, so any matrix the
 * source derives cell by cell from those powers (the distance matrix) is
 * symmetric as well. The proof needs the product to be associative, so that M
 * commutes with its own powers.
 */
module Symmetry {
  import opened Matrix

  /** Cell (i, j) equals cell (j, i) for every pair of vertices. */
  ghost predicate Symmetric(m: seq<int>, n: nat)
    requires |m| == n * n
  {
    forall i, j :: 0 <= i < n && 0 <= j < n ==> At(m, n, i, j) == At(m, n, j, i)
  }

  /** Multiplying on the right by the identity keeps the first k terms of row i reduced to at most the diagonal one. */
  lemma {:induction false} DotIdentityRight(m: seq<int>, n: nat, i: nat, j: nat, k: nat)
    requires |m| == n * n && i < n && j < n && k <= n
    ensures Dot(m, Identity(n), n, i, j, k) == if j < k then At(m, n, i, j) else 0
    decreases k
  {
    if k > 0 {
      DotIdentityRight(m, n, i, j, k - 1);
      assert At(Identity(n), n, k - 1, j) == if k - 1 == j then 1 else 0;
    }
  }

  /** The identity is a right unit of the product. */
  lemma TimesIdentity(m: seq<int>, n: nat)
    requires |m| == n * n
    ensures MatMul(m, Identity(n), n) == m
  {
    var c := MatMul(m, Identity(n), n);
    forall p | 0 <= p < n * n
      ensures c[p] == m[p]
    {
      var i, j := CellOf(p, n);
      DotIdentityRight(m, n, i, j, n);
      MatMulAt(m, Identity(n), n, i, j);
    }
  }

  /**
   * The first L terms of the outer sum of (a · b) · c at cell (i, j), with the inner
   * dot products cut at Q terms: Σ_{l < L} (Σ_{q < Q} a(i, q) · b(q, l)) · c(l, j).
   */
  function TripleSum(a: seq<int>, b: seq<int>, c: seq<int>, n: nat, i: nat, j: nat, L: nat, Q: nat): int
    requires |a| == n * n && |b| == n * n && |c| == n * n && i < n && j < n && L <= n && Q <= n
    decreases L
  {
    if L == 0 then 0 else TripleSum(a, b, c, n, i, j, L - 1, Q) + Dot(a, b, n, i, L - 1, Q) * At(c, n, L - 1, j)
  }

  /** With full inner sums, the outer sum is the dot product of row i of a · b with column j of c. */
  lemma {:induction false} TripleSumLeft(a: seq<int>, b: seq<int>, c: seq<int>, n: nat, i: nat, j: nat, L: nat)
    requires |a| == n * n && |b| == n * n && |c| == n * n && i < n && j < n && L <= n
    ensures TripleSum(a, b, c, n, i, j, L, n) == Dot(MatMul(a, b, n), c, n, i, j, L)
    decreases L
  {
    if L > 0 {
      TripleSumLeft(a, b, c, n, i, j, L - 1);
      MatMulAt(a, b, n, i, L - 1);
    }
  }

  /** Lengthening every inner sum by the term q = Q adds a(i, Q) times the first L terms of row Q of b · c. */
  lemma {:induction false} TripleSumStep(a: seq<int>, b: seq<int>, c: seq<int>, n: nat, i: nat, j: nat, L: nat, Q: nat)
    requires |a| == n * n && |b| == n * n && |c| == n * n && i < n && j < n && L <= n && Q < n
    ensures TripleSum(a, b, c, n, i, j, L, Q + 1) == TripleSum(a, b, c, n, i, j, L, Q) + At(a, n, i, Q) * Dot(b, c, n, Q, j, L)
    decreases L
  {
    if L > 0 {
      TripleSumStep(a, b, c, n, i, j, L - 1, Q);
      var x, y, z := At(a, n, i, Q), At(b, n, Q, L - 1), At(c, n, L - 1, j);
      var d := Dot(a, b, n, i, L - 1, Q);
      var e := Dot(b, c, n, Q, j, L - 1);
      var t0, t1 := TripleSum(a, b, c, n, i, j, L - 1, Q), TripleSum(a, b, c, n, i, j, L - 1, Q + 1);
      assert Dot(a, b, n, i, L - 1, Q + 1) == d + x * y;
      assert Dot(b, c, n, Q, j, L) == e + y * z;
      assert TripleSum(a, b, c, n, i, j, L, Q + 1) == t1 + (d + x * y) * z;
      assert TripleSum(a, b, c, n, i, j, L, Q) == t0 + d * z;
      Regroup(t0, d, e, x, y, z);
    }
  }

  /** The rearrangement behind TripleSumStep: moving one product from the outer sum into the inner one. */
  lemma Regroup(t: int, d: int, e: int, x: int, y: int, z: int)
    ensures t + x * e + (d + x * y) * z == t + d * z + x * (e + y * z)
  {
    assert (d + x * y) * z == d * z + (x * y) * z;
    assert x * (e + y * z) == x * e + x * (y * z);
  }

  /** With all n outer terms, the sum is the dot product of row i of a with column j of b · c. */
  lemma {:induction false} TripleSumRight(a: seq<int>, b: seq<int>, c: seq<int>, n: nat, i: nat, j: nat, Q: nat)
    requires |a| == n * n && |b| == n * n && |c| == n * n && i < n && j < n && Q <= n
    ensures TripleSum(a, b, c, n, i, j, n, Q) == Dot(a, MatMul(b, c, n), n, i, j, Q)
    decreases Q
  {
    if Q == 0 {
      ZeroInner(a, b, c, n, i, j, n);
    } else {
      TripleSumRight(a, b, c, n, i, j, Q - 1);
      TripleSumStep(a, b, c, n, i, j, n, Q - 1);
      MatMulAt(b, c, n, Q - 1, j);
    }
  }

  /** Empty inner sums make every outer term zero. */
  lemma {:induction false} ZeroInner(a: seq<int>, b: seq<int>, c: seq<int>, n: nat, i: nat, j: nat, L: nat)
    requires |a| == n * n && |b| == n * n && |c| == n * n && i < n && j < n && L <= n
    ensures TripleSum(a, b, c, n, i, j, L, 0) == 0
    decreases L
  {
    if L > 0 {
      ZeroInner(a, b, c, n, i, j, L - 1);
    }
  }

  /** The matrix product is associative: (a · b) · c = a · (b · c). */
  lemma MulAssociative(a: seq<int>, b: seq<int>, c: seq<int>, n: nat)
    requires |a| == n * n && |b| == n * n && |c| == n * n
    ensures MatMul(MatMul(a, b, n), c, n) == MatMul(a, MatMul(b, c, n), n)
  {
    var left, right := MatMul(MatMul(a, b, n), c, n), MatMul(a, MatMul(b, c, n), n);
    forall p | 0 <= p < n * n
      ensures left[p] == right[p]
    {
      var i, j := CellOf(p, n);
      TripleSumLeft(a, b, c, n, i, j, n);
      TripleSumRight(a, b, c, n, i, j, n);
      MatMulAt(MatMul(a, b, n), c, n, i, j);
      MatMulAt(a, MatMul(b, c, n), n, i, j);
    }
  }

  /** m commutes with its own powers: m · M^k = M^k · m = M^(k+1). */
  lemma {:induction false} PowersCommute(m: seq<int>, n: nat, k: nat)
    requires |m| == n * n
    ensures MatMul(m, MatPow(m, n, k), n) == MatPow(m, n, k + 1)
    decreases k
  {
    if k == 0 {
      TimesIdentity(m, n);
      IdentityTimes(m, n);
    } else {
      var prev := MatPow(m, n, k - 1);
      PowersCommute(m, n, k - 1);
      MulAssociative(m, prev, m, n);
    }
  }

  /** For symmetric a and b, cell (i, j) of a · b is cell (j, i) of b · a, term by term. */
  lemma {:induction false} DotSwap(a: seq<int>, b: seq<int>, n: nat, i: nat, j: nat, k: nat)
    requires |a| == n * n && |b| == n * n && i < n && j < n && k <= n
    requires Symmetric(a, n) && Symmetric(b, n)
    ensures Dot(a, b, n, i, j, k) == Dot(b, a, n, j, i, k)
    decreases k
  {
    if k > 0 {
      DotSwap(a, b, n, i, j, k - 1);
      assert At(a, n, i, k - 1) == At(a, n, k - 1, i);
      assert At(b, n, k - 1, j) == At(b, n, j, k - 1);
    }
  }

  /** Every power of a symmetric matrix is symmetric. */
  lemma {:induction false} PowerSymmetric(m: seq<int>, n: nat, k: nat)
    requires |m| == n * n && Symmetric(m, n)
    ensures Symmetric(MatPow(m, n, k), n)
    decreases k
  {
    if k > 0 {
      var prev := MatPow(m, n, k - 1);
      PowerSymmetric(m, n, k - 1);
      PowersCommute(m, n, k - 1);
      forall i, j | 0 <= i < n && 0 <= j < n
        ensures At(MatPow(m, n, k), n, i, j) == At(MatPow(m, n, k), n, j, i)
      {
        MatMulAt(prev, m, n, i, j);
        DotSwap(prev, m, n, i, j, n);
        MatMulAt(m, prev, n, j, i);
      }
    }
  }
}
