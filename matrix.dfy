/**
 * Square integer matrices stored row-major in a flat sequence of n*n cells,
 * the layout grafo.c uses for every matrix: cell (i, j) lives at index i*n + j.
 * Cells are unbounded integers (the source's `long int` overflow is not modelled).
 *
 * The functions give the mathematical meaning (product, sum, power); the two
 * methods are the source's array primitives, proved against those functions.
 */
module Matrix {

  /** Multiplication by a natural number is monotone. */
  lemma {:induction false} MulMonotone(a: nat, b: nat, c: nat)
    requires a <= b
    ensures a * c <= b * c
    decreases c
  {
    if c > 0 {
      MulMonotone(a, b, c - 1);
      assert a * c == a * (c - 1) + a && b * c == b * (c - 1) + b;
    }
  }

  /** Euclidean division by n is determined by a quotient and a remainder below n. */
  lemma DivModUnique(x: nat, q: nat, r: nat, n: nat)
    requires r < n && x == q * n + r
    ensures x / n == q && x % n == r
  {
    var q', r' := x / n, x % n;
    assert x == q' * n + r' && 0 <= r' < n;
    if q' < q {
      MulMonotone(q' + 1, q, n);
    } else if q' > q {
      MulMonotone(q + 1, q', n);
    }
  }

  /** Cell (i, j) of an n×n matrix has a flat index below n*n. */
  lemma CellBound(i: nat, j: nat, n: nat)
    requires i < n && j < n
    ensures 0 <= i * n + j < n * n
  {
    MulMonotone(i + 1, n, n);
    assert (i + 1) * n == i * n + n;
  }

  /** The flat index of cell (i, j) gives back its row and column. */
  lemma CellIndex(i: nat, j: nat, n: nat)
    requires i < n && j < n
    ensures 0 <= i * n + j < n * n
    ensures (i * n + j) / n == i && (i * n + j) % n == j
  {
    CellBound(i, j, n);
    DivModUnique(i * n + j, i, j, n);
  }

  /** Every flat index below n*n is the index of exactly one cell. */
  lemma RowCol(p: nat, n: nat)
    requires p < n * n
    ensures p / n < n && p % n < n && p == (p / n) * n + p % n
  {
    if p / n >= n {
      MulMonotone(n, p / n, n);
    }
  }

  /** The row and column of a flat index below n*n. */
  lemma CellOf(p: nat, n: nat) returns (i: nat, j: nat)
    requires p < n * n
    ensures i < n && j < n && p == i * n + j
  {
    RowCol(p, n);
    i, j := p / n, p % n;
  }

  /** Two in-range cells share a flat index only if they are the same cell. */
  lemma CellIndexInjective(i: nat, j: nat, k: nat, l: nat, n: nat)
    requires i < n && j < n && k < n && l < n
    ensures i * n + j == k * n + l <==> i == k && j == l
  {
    CellIndex(i, j, n);
    CellIndex(k, l, n);
  }

  /** Cell (i, j) of the row-major matrix m. */
  function At(m: seq<int>, n: nat, i: nat, j: nat): int
    requires |m| == n * n && i < n && j < n
  {
    CellBound(i, j, n);
    m[i * n + j]
  }

  /** The n×n matrix of zeros. */
  function Zero(n: nat): (z: seq<int>)
    ensures |z| == n * n
    ensures forall p :: 0 <= p < n * n ==> z[p] == 0
  {
    seq(n * n, p => 0)
  }

  /** The n×n identity matrix: 1 on the diagonal, 0 elsewhere. */
  function Identity(n: nat): (e: seq<int>)
    ensures |e| == n * n
    ensures forall i, j :: 0 <= i < n && 0 <= j < n ==> At(e, n, i, j) == if i == j then 1 else 0
  {
    var e := seq(n * n, p requires 0 <= p < n * n => if p / n == p % n then 1 else 0);
    assert forall i, j :: 0 <= i < n && 0 <= j < n ==> At(e, n, i, j) == if i == j then 1 else 0 by {
      forall i, j | 0 <= i < n && 0 <= j < n
        ensures At(e, n, i, j) == if i == j then 1 else 0
      {
        CellIndex(i, j, n);
      }
    }
    e
  }

  /**
   * The matrix whose first `rows` diagonal cells hold `on` and whose other cells
   * hold `off`: the state of a buffer whose diagonal is being written row by row.
   */
  function Diagonal(n: nat, rows: nat, on: int, off: int): (d: seq<int>)
    ensures |d| == n * n
  {
    seq(n * n, p requires 0 <= p < n * n => if p / n == p % n && p / n < rows then on else off)
  }

  /** Writing `on` to diagonal cell (rows, rows) extends the written prefix of the diagonal by one row. */
  lemma DiagonalStep(n: nat, rows: nat, on: int, off: int)
    requires rows < n
    ensures 0 <= rows * n + rows < n * n
    ensures Diagonal(n, rows, on, off)[rows * n + rows] == off
    ensures Diagonal(n, rows, on, off)[rows * n + rows := on] == Diagonal(n, rows + 1, on, off)
  {
    var q := rows * n + rows;
    CellIndex(rows, rows, n);
    var before, after := Diagonal(n, rows, on, off), Diagonal(n, rows + 1, on, off);
    forall p | 0 <= p < n * n
      ensures before[q := on][p] == after[p]
    {
      RowCol(p, n);
    }
  }

  /** Once every row is written, a diagonal cell holds `on` and every other cell `off`; with 1 and 0 that is the identity. */
  lemma DiagonalFull(n: nat, on: int, off: int)
    ensures forall p :: 0 <= p < n * n ==> Diagonal(n, n, on, off)[p] == if p / n == p % n then on else off
    ensures Diagonal(n, n, 1, 0) == Identity(n)
  {
    forall p | 0 <= p < n * n
      ensures Diagonal(n, n, on, off)[p] == if p / n == p % n then on else off
    {
      RowCol(p, n);
    }
    forall p | 0 <= p < n * n
      ensures Diagonal(n, n, 1, 0)[p] == Identity(n)[p]
    {
      RowCol(p, n);
    }
  }

  /** Cell-wise sum of two matrices of the same size. */
  function MatAdd(a: seq<int>, b: seq<int>): (c: seq<int>)
    requires |a| == |b|
    ensures |c| == |a|
    ensures forall p :: 0 <= p < |c| ==> c[p] == a[p] + b[p]
  {
    seq(|a|, p requires 0 <= p < |a| => a[p] + b[p])
  }

  /** The partial dot product Σ_{l < k} a(i, l) · b(l, j). */
  function Dot(a: seq<int>, b: seq<int>, n: nat, i: nat, j: nat, k: nat): int
    requires |a| == n * n && |b| == n * n && i < n && j < n && k <= n
    decreases k
  {
    if k == 0 then 0 else Dot(a, b, n, i, j, k - 1) + At(a, n, i, k - 1) * At(b, n, k - 1, j)
  }

  /** The matrix product a · b, whose cell (i, j) is Σ_{k < n} a(i, k) · b(k, j) (see MatMulAt). */
  function MatMul(a: seq<int>, b: seq<int>, n: nat): (c: seq<int>)
    requires |a| == n * n && |b| == n * n
    ensures |c| == n * n
  {
    seq(n * n, p requires 0 <= p < n * n => RowCol(p, n); Dot(a, b, n, p / n, p % n, n))
  }

  /** Cell (i, j) of the product is the dot product of row i of a with column j of b. */
  lemma MatMulAt(a: seq<int>, b: seq<int>, n: nat, i: nat, j: nat)
    requires |a| == n * n && |b| == n * n && i < n && j < n
    ensures At(MatMul(a, b, n), n, i, j) == Dot(a, b, n, i, j, n)
  {
    var p := i * n + j;
    CellIndex(i, j, n);
    assert MatMul(a, b, n)[p] == Dot(a, b, n, p / n, p % n, n);
  }

  /** The k-th power of m: M^0 is the identity and M^(k+1) = M^k · M, the order in which the source advances its power buffer. */
  function MatPow(m: seq<int>, n: nat, k: nat): (r: seq<int>)
    requires |m| == n * n
    ensures |r| == n * n
    decreases k
  {
    if k == 0 then Identity(n) else MatMul(MatPow(m, n, k - 1), m, n)
  }

  /** Multiplying on the left by the identity keeps the first k terms of column j reduced to at most the diagonal one. */
  lemma {:induction false} DotIdentity(m: seq<int>, n: nat, i: nat, j: nat, k: nat)
    requires |m| == n * n && i < n && j < n && k <= n
    ensures Dot(Identity(n), m, n, i, j, k) == if i < k then At(m, n, i, j) else 0
  {
    if k > 0 {
      DotIdentity(m, n, i, j, k - 1);
    }
  }

  /** The identity is a left unit of the product. */
  lemma IdentityTimes(m: seq<int>, n: nat)
    requires |m| == n * n
    ensures MatMul(Identity(n), m, n) == m
  {
    var c := MatMul(Identity(n), m, n);
    forall p | 0 <= p < n * n
      ensures c[p] == m[p]
    {
      RowCol(p, n);
      DotIdentity(m, n, p / n, p % n, n);
      MatMulAt(Identity(n), m, n, p / n, p % n);
      assert c[p] == At(c, n, p / n, p % n);
    }
  }

  /** The first power is the matrix itself, so a copy of m is a valid starting power buffer. */
  lemma PowerOne(m: seq<int>, n: nat)
    requires |m| == n * n
    ensures MatPow(m, n, 1) == m
  {
    IdentityTimes(m, n);
  }

  /**
   * multiplicar_matriz_quadrada: fills a fresh n×n buffer with the product a · b
   * in the source's triple loop. The source then swaps the caller's pointer to the
   * new buffer; here the caller reassigns its variable to the returned array.
   * Neither argument is changed.
   */
  method Multiply(a: array<int>, b: array<int>, n: nat) returns (c: array<int>)
    requires a.Length == n * n && b.Length == n * n
    ensures fresh(c)
    ensures c[..] == MatMul(a[..], b[..], n)
  {
    ghost var A, B := a[..], b[..];
    ghost var product := MatMul(A, B, n);
    c := new int[n * n];
    var i := 0;
    while i < n
      invariant 0 <= i <= n
      invariant forall p :: 0 <= p < i * n ==> c[p] == product[p]
    {
      MulMonotone(i, n, n);
      var j := 0;
      while j < n
        invariant 0 <= j <= n
        invariant i * n + j <= n * n
        invariant forall p :: 0 <= p < i * n + j ==> c[p] == product[p]
      {
        CellIndex(i, j, n);
        var q := i * n + j;
        c[q] := 0;
        var k := 0;
        while k < n
          invariant 0 <= k <= n
          invariant c[q] == Dot(A, B, n, i, j, k)
          invariant forall p :: 0 <= p < q ==> c[p] == product[p]
        {
          CellBound(i, k, n);
          CellBound(k, j, n);
          c[q] := c[q] + a[i * n + k] * b[k * n + j];
          k := k + 1;
        }
        MatMulAt(A, B, n, i, j);
        assert product[q] == At(product, n, i, j);
        j := j + 1;
      }
      assert i * n + n == (i + 1) * n;
      i := i + 1;
    }
    assert c[..] == product;
  }

  /**
   * somar_matriz_quadrada: adds s into m cell by cell, in place. Each cell of s is
   * read before the same cell of m is written, so the result is the sum of the two
   * old matrices even when both arguments are the same array.
   */
  method AddInto(m: array<int>, s: array<int>, n: nat)
    requires m.Length == n * n && s.Length == n * n
    modifies m
    ensures m[..] == MatAdd(old(m[..]), old(s[..]))
    ensures m != s ==> s[..] == old(s[..])
  {
    var i := 0;
    while i < n * n
      invariant 0 <= i <= n * n
      invariant forall p :: 0 <= p < i ==> m[p] == old(m[p]) + old(s[p])
      invariant forall p :: i <= p < n * n ==> m[p] == old(m[p]) && s[p] == old(s[p])
    {
      m[i] := m[i] + s[i];
      i := i + 1;
    }
  }
}
