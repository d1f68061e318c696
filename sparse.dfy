// Compressed-row sparse matrices over exact reals, and the vector operations
// the multigrid level is specified with.

module Sparse {

  /** A compressed-row matrix: row i owns the entries row[i] .. row[i+1]-1 of col and val. */
  datatype Csr = Csr(rows: nat, row: seq<nat>, col: seq<nat>, val: seq<real>)

  /** The matrix a level holds in a slot it does not use (P and R at the coarsest level, Ai elsewhere). */
  const NoMatrix := Csr(0, [0], [], [])

  /** rows+1 offsets, starting at 0, never decreasing. */
  predicate RowPointers(M: Csr) {
    |M.row| == M.rows + 1 && M.row[0] == 0 &&
    forall i, j :: 0 <= i <= j <= M.rows ==> M.row[i] <= M.row[j]
  }

  /** Well-formed with every column index below ncols. */
  predicate Valid(M: Csr, ncols: nat) {
    RowPointers(M) &&
    M.row[M.rows] <= |M.col| && |M.col| == |M.val| &&
    (forall k :: 0 <= k < |M.col| ==> M.col[k] < ncols)
  }

  /** Sum of val[j] * x[col[j]] over lo <= j < hi, accumulated in index order. */
  function RowSum(M: Csr, x: seq<real>, lo: nat, hi: nat): real
    requires Valid(M, |x|) && lo <= hi <= |M.col|
    decreases hi
  {
    if lo == hi then 0.0 else RowSum(M, x, lo, hi - 1) + M.val[hi - 1] * x[M.col[hi - 1]]
  }

  /** Entry i of M * x. */
  function RowDot(M: Csr, i: nat, x: seq<real>): real
    requires Valid(M, |x|) && i < M.rows
  {
    RowSum(M, x, M.row[i], M.row[i + 1])
  }

  function MatVec(M: Csr, x: seq<real>): (y: seq<real>)
    requires Valid(M, |x|)
    ensures |y| == M.rows
  {
    seq(M.rows, i requires 0 <= i < M.rows => RowDot(M, i, x))
  }

  function Zeros(n: nat): (z: seq<real>)
    ensures |z| == n
  {
    seq(n, _ => 0.0)
  }

  /** rhs - M * x. */
  function Residual(M: Csr, rhs: seq<real>, x: seq<real>): (r: seq<real>)
    requires Valid(M, |x|) && |rhs| == M.rows
    ensures |r| == M.rows
  {
    seq(M.rows, i requires 0 <= i < M.rows => rhs[i] - RowDot(M, i, x))
  }

  /**
   * The value a left-to-right scan of entries lo .. hi-1 keeps as the diagonal
   * of row i: the last entry whose column is i, or 1 when there is none.
   */
  function LastDiag(M: Csr, i: nat, lo: nat, hi: nat): real
    requires lo <= hi <= |M.col| && |M.col| == |M.val|
    decreases hi
  {
    if hi == lo then 1.0
    else if M.col[hi - 1] == i then M.val[hi - 1]
    else LastDiag(M, i, lo, hi - 1)
  }

  function Diag(M: Csr, i: nat): real
    requires Valid(M, M.rows) && i < M.rows
  {
    LastDiag(M, i, M.row[i], M.row[i + 1])
  }

  /** Square, well-formed, and every row's diagonal (as Diag finds it) is non-zero. */
  predicate Smoothable(A: Csr) {
    Valid(A, A.rows) && forall i :: 0 <= i < A.rows ==> Diag(A, i) != 0.0
  }

  /** The damping factor of the relaxation sweep. */
  const Omega: real := 0.72

  /** One damped-Jacobi sweep: every row reads only the incoming x. */
  function Jacobi(A: Csr, rhs: seq<real>, x: seq<real>): (y: seq<real>)
    requires Smoothable(A) && |rhs| == A.rows && |x| == A.rows
    ensures |y| == A.rows
  {
    var res := Residual(A, rhs, x);
    seq(A.rows, i requires 0 <= i < A.rows => x[i] + Omega * (res[i] / Diag(A, i)))
  }

  /** k sweeps in a row. */
  function RelaxN(A: Csr, rhs: seq<real>, x: seq<real>, k: nat): (y: seq<real>)
    requires Smoothable(A) && |rhs| == A.rows && |x| == A.rows
    ensures |y| == A.rows
  {
    if k == 0 then x else Jacobi(A, rhs, RelaxN(A, rhs, x, k - 1))
  }

  /** Sum of x[i] * y[i] over i < k, accumulated in index order. */
  function DotUpTo(x: seq<real>, y: seq<real>, k: nat): real
    requires k <= |x| && k <= |y|
  {
    if k == 0 then 0.0 else DotUpTo(x, y, k - 1) + x[k - 1] * y[k - 1]
  }

  function AddVec(x: seq<real>, y: seq<real>): (z: seq<real>)
    requires |x| == |y|
    ensures |z| == |x|
  {
    seq(|x|, i requires 0 <= i < |x| => x[i] + y[i])
  }

  /** y + a * x. */
  function AddScaled(y: seq<real>, a: real, x: seq<real>): (z: seq<real>)
    requires |x| == |y|
    ensures |z| == |y|
  {
    seq(|y|, i requires 0 <= i < |y| => y[i] + a * x[i])
  }

  /** y - a * x. */
  function SubScaled(y: seq<real>, a: real, x: seq<real>): (z: seq<real>)
    requires |x| == |y|
    ensures |z| == |y|
  {
    seq(|y|, i requires 0 <= i < |y| => y[i] - a * x[i])
  }

  /** Number of stored entries, counted row by row. */
  function EntryCount(M: Csr, k: nat): nat
    requires RowPointers(M) && k <= M.rows
  {
    if k == 0 then 0 else EntryCount(M, k - 1) + (M.row[k] - M.row[k - 1])
  }

  // ---------------------------------------------------------------------
  // Lemmas

  lemma {:induction false} RowSumOfZeros(M: Csr, n: nat, lo: nat, hi: nat)
    requires Valid(M, n) && lo <= hi <= |M.col|
    ensures RowSum(M, Zeros(n), lo, hi) == 0.0
    decreases hi
  {
    if lo < hi {
      RowSumOfZeros(M, n, lo, hi - 1);
    }
  }

  /** A matrix maps the zero vector to the zero vector. */
  lemma MatVecOfZeros(M: Csr, n: nat)
    requires Valid(M, n)
    ensures MatVec(M, Zeros(n)) == Zeros(M.rows)
  {
    forall i | 0 <= i < M.rows
      ensures MatVec(M, Zeros(n))[i] == 0.0
    {
      RowSumOfZeros(M, n, M.row[i], M.row[i + 1]);
    }
  }

  /** A sweep leaves x alone exactly when x solves A x = rhs. */
  lemma JacobiFixedIffSolved(A: Csr, rhs: seq<real>, x: seq<real>)
    requires Smoothable(A) && |rhs| == A.rows && |x| == A.rows
    ensures Jacobi(A, rhs, x) == x <==> Residual(A, rhs, x) == Zeros(A.rows)
  {
    var res := Residual(A, rhs, x);
    var y := Jacobi(A, rhs, x);
    if y == x {
      forall i | 0 <= i < A.rows ensures res[i] == 0.0 {
        assert y[i] == x[i] + Omega * (res[i] / Diag(A, i));
        assert Omega * (res[i] / Diag(A, i)) == 0.0;
        assert res[i] / Diag(A, i) == 0.0;
      }
    }
    if res == Zeros(A.rows) {
      forall i | 0 <= i < A.rows ensures y[i] == x[i] {
        assert res[i] == 0.0;
      }
    }
  }

  /** Any number of sweeps leaves an exact solution alone. */
  lemma {:induction false} RelaxNFixesSolution(A: Csr, rhs: seq<real>, x: seq<real>, k: nat)
    requires Smoothable(A) && |rhs| == A.rows && |x| == A.rows
    requires Residual(A, rhs, x) == Zeros(A.rows)
    ensures RelaxN(A, rhs, x, k) == x
  {
    if k > 0 {
      RelaxNFixesSolution(A, rhs, x, k - 1);
      JacobiFixedIffSolved(A, rhs, x);
    }
  }

  /** The zero vector solves A x = 0. */
  lemma ZeroSolvesZero(A: Csr)
    requires Valid(A, A.rows)
    ensures Residual(A, Zeros(A.rows), Zeros(A.rows)) == Zeros(A.rows)
  {
    MatVecOfZeros(A, A.rows);
    forall i | 0 <= i < A.rows
      ensures Residual(A, Zeros(A.rows), Zeros(A.rows))[i] == 0.0
    {
      assert RowDot(A, i, Zeros(A.rows)) == MatVec(A, Zeros(A.rows))[i];
    }
  }

  lemma {:induction false} DotWithZeros(x: seq<real>, n: nat, k: nat)
    requires k <= n && k <= |x|
    ensures DotUpTo(x, Zeros(n), k) == 0.0 && DotUpTo(Zeros(n), x, k) == 0.0
  {
    if k > 0 {
      DotWithZeros(x, n, k - 1);
    }
  }

  lemma SquareNonneg(a: real)
    ensures a * a >= 0.0
    ensures a != 0.0 ==> a * a > 0.0
  {
    if a < 0.0 {
      assert (-a) * (-a) == a * a;
    }
  }

  lemma AddSquare(d: real, a: real)
    requires d >= 0.0
    ensures d + a * a >= 0.0
    ensures a != 0.0 ==> d + a * a > 0.0
  {
    SquareNonneg(a);
    calc {
      d + a * a;
    >=
      a * a;
    >=
      0.0;
    }
    if a != 0.0 {
      calc {
        d + a * a;
      >=
        a * a;
      >
        0.0;
      }
    }
  }

  /** The squared norm is non-negative and vanishes exactly on the zero prefix. */
  lemma {:induction false} SquaredNormZeroIff(v: seq<real>, k: nat)
    requires k <= |v|
    ensures DotUpTo(v, v, k) >= 0.0
    ensures DotUpTo(v, v, k) == 0.0 <==> forall i :: 0 <= i < k ==> v[i] == 0.0
  {
    if k > 0 {
      SquaredNormZeroIff(v, k - 1);
      AddSquare(DotUpTo(v, v, k - 1), v[k - 1]);
      if v[k - 1] == 0.0 {
        assert v[k - 1] * v[k - 1] == 0.0;
      }
    }
  }

  /** The inner product does not depend on the order of its arguments. */
  lemma {:induction false} DotSymmetric(x: seq<real>, y: seq<real>, k: nat)
    requires k <= |x| && k <= |y|
    ensures DotUpTo(x, y, k) == DotUpTo(y, x, k)
  {
    if k > 0 {
      DotSymmetric(x, y, k - 1);
    }
  }

  /** row[k] counts the entries of the first k rows. */
  lemma {:induction false} RowPointerCountsEntries(M: Csr, k: nat)
    requires RowPointers(M) && k <= M.rows
    ensures EntryCount(M, k) == M.row[k]
  {
    if k > 0 {
      RowPointerCountsEntries(M, k - 1);
    }
  }

  /** The zero guess has the right-hand side itself as its residual. */
  lemma ResidualAtZeros(M: Csr, n: nat, rhs: seq<real>)
    requires Valid(M, n) && |rhs| == M.rows
    ensures Residual(M, rhs, Zeros(n)) == rhs
  {
    forall i | 0 <= i < M.rows
      ensures Residual(M, rhs, Zeros(n))[i] == rhs[i]
    {
      assert M.row[i] <= M.row[i + 1] <= M.row[M.rows];
      RowSumOfZeros(M, n, M.row[i], M.row[i + 1]);
    }
  }

  /** A row sum is linear in the vector it multiplies. */
  lemma {:induction false} RowSumAddScaled(M: Csr, x: seq<real>, a: real, p: seq<real>, lo: nat, hi: nat)
    requires Valid(M, |x|) && |p| == |x| && lo <= hi <= |M.col|
    ensures RowSum(M, AddScaled(x, a, p), lo, hi) == RowSum(M, x, lo, hi) + a * RowSum(M, p, lo, hi)
    decreases hi
  {
    if lo < hi {
      RowSumAddScaled(M, x, a, p, lo, hi - 1);
      var v, c := M.val[hi - 1], M.col[hi - 1];
      var y := AddScaled(x, a, p);
      assert y[c] == x[c] + a * p[c];
      calc {
        RowSum(M, y, lo, hi);
        RowSum(M, y, lo, hi - 1) + v * y[c];
        RowSum(M, x, lo, hi - 1) + a * RowSum(M, p, lo, hi - 1) + v * (x[c] + a * p[c]);
        { assert v * (x[c] + a * p[c]) == v * x[c] + a * (v * p[c]); }
        (RowSum(M, x, lo, hi - 1) + v * x[c]) + a * (RowSum(M, p, lo, hi - 1) + v * p[c]);
        RowSum(M, x, lo, hi) + a * RowSum(M, p, lo, hi);
      }
    }
  }

  /** Moving x by a p moves the residual by -a M p. */
  lemma ResidualAddScaled(M: Csr, rhs: seq<real>, x: seq<real>, a: real, p: seq<real>)
    requires Valid(M, |x|) && |p| == |x| && |rhs| == M.rows
    ensures Residual(M, rhs, AddScaled(x, a, p)) == SubScaled(Residual(M, rhs, x), a, MatVec(M, p))
  {
    forall i | 0 <= i < M.rows
      ensures Residual(M, rhs, AddScaled(x, a, p))[i] == SubScaled(Residual(M, rhs, x), a, MatVec(M, p))[i]
    {
      assert M.row[i] <= M.row[i + 1] <= M.row[M.rows];
      RowSumAddScaled(M, x, a, p, M.row[i], M.row[i + 1]);
    }
  }
}
