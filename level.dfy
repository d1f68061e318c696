// One level of the AMG hierarchy for main-memory vectors: its matrices, its
// workspace vectors, the relaxation sweep and the reductions over its rows.

module LevelCpu {
  import opened Sparse

  /** Solver parameters: cycles per call, pre/post sweeps, K-cycle interval (0 = off). */
  datatype Params = Params(ncycle: nat, npre: nat, npost: nat, kcycle: nat)

  /** A level at position nlevel gets K-cycle workspace when the interval divides its position. */
  predicate KcycleAt(prm: Params, nlevel: nat) {
    prm.kcycle != 0 && nlevel % prm.kcycle == 0
  }

  /**
   * A growable vector of reals. Its contents are a value that can be replaced
   * wholesale, so exchanging the contents of two vectors keeps both objects
   * where they are and moves only the data, as swapping two vectors does.
   */
  class Vec {
    var elems: seq<real>

    /** n value-initialised entries. */
    constructor (n: nat)
      ensures elems == Zeros(n)
    {
      elems := Zeros(n);
    }

    /** Keep the first n entries, or pad with zeros up to n. */
    method Resize(n: nat)
      modifies this
      ensures |elems| == n
      ensures n <= |old(elems)| ==> elems == old(elems)[..n]
      ensures n > |old(elems)| ==> elems == old(elems) + Zeros(n - |old(elems)|)
    {
      if n <= |elems| {
        elems := elems[..n];
      } else {
        elems := elems + Zeros(n - |elems|);
      }
    }
  }

  /** Exchange the contents of two vectors of the same type (the move path of relax). */
  method VectorCopy(u: Vec, v: Vec)
    requires u != v
    modifies u, v
    ensures u.elems == old(v.elems) && v.elems == old(u.elems)
  {
    u.elems, v.elems := v.elems, u.elems;
  }

  /** Copy every entry of u to the front of a buffer of another type. */
  method VectorCopyToArray(u: Vec, v: array<real>)
    requires |u.elems| <= v.Length
    modifies v
    ensures v[..] == u.elems + old(v[..])[|u.elems|..]
  {
    var i := 0;
    while i < |u.elems|
      invariant 0 <= i <= |u.elems|
      invariant forall k :: 0 <= k < i ==> v[k] == u.elems[k]
      invariant forall k :: i <= k < v.Length ==> v[k] == old(v[k])
    {
      v[i] := u.elems[i];
      i := i + 1;
    }
  }

  // Row kernels shared by the sweeps and products of the level and the cycle.

  /** Entry i of M * x, accumulated over the stored entries of row i. */
  method RowProduct(M: Csr, i: nat, x: seq<real>) returns (temp: real)
    requires Valid(M, |x|) && i < M.rows
    ensures temp == RowDot(M, i, x)
  {
    assert M.row[i] <= M.row[i + 1] <= M.row[M.rows];
    temp := 0.0;
    var j, e := M.row[i], M.row[i + 1];
    while j < e
      invariant M.row[i] <= j <= e
      invariant temp == RowSum(M, x, M.row[i], j)
    {
      temp := temp + M.val[j] * x[M.col[j]];
      j := j + 1;
    }
  }

  /** b minus entry i of M * x, subtracting one stored entry at a time. */
  method RowResidual(M: Csr, i: nat, b: real, x: seq<real>) returns (temp: real)
    requires Valid(M, |x|) && i < M.rows
    ensures temp == b - RowDot(M, i, x)
  {
    assert M.row[i] <= M.row[i + 1] <= M.row[M.rows];
    temp := b;
    var j, e := M.row[i], M.row[i + 1];
    while j < e
      invariant M.row[i] <= j <= e
      invariant temp == b - RowSum(M, x, M.row[i], j)
    {
      temp := temp - M.val[j] * x[M.col[j]];
      j := j + 1;
    }
  }

  /** out = M * v, row by row. */
  method MatVecInto(M: Csr, v: seq<real>, out: Vec)
    requires Valid(M, |v|) && |out.elems| == M.rows
    modifies out
    ensures out.elems == MatVec(M, v)
  {
    var i := 0;
    while i < M.rows
      invariant 0 <= i <= M.rows && |out.elems| == M.rows
      invariant forall k :: 0 <= k < i ==> out.elems[k] == MatVec(M, v)[k]
    {
      var temp := RowProduct(M, i, v);
      out.elems := out.elems[i := temp];
      i := i + 1;
    }
  }

  /** out = rhs - M * x, row by row. */
  method ResidualInto(M: Csr, rhs: seq<real>, x: seq<real>, out: Vec)
    requires Valid(M, |x|) && |rhs| == M.rows && |out.elems| == M.rows
    modifies out
    ensures out.elems == Residual(M, rhs, x)
  {
    var i := 0;
    while i < M.rows
      invariant 0 <= i <= M.rows && |out.elems| == M.rows
      invariant forall k :: 0 <= k < i ==> out.elems[k] == Residual(M, rhs, x)[k]
    {
      var temp := RowResidual(M, i, rhs[i], x);
      out.elems := out.elems[i := temp];
      i := i + 1;
    }
  }

  /** x += M * v, row by row. */
  method AddMatVecInto(M: Csr, v: seq<real>, x: Vec)
    requires Valid(M, |v|) && |x.elems| == M.rows
    modifies x
    ensures x.elems == AddVec(old(x.elems), MatVec(M, v))
  {
    var i := 0;
    while i < M.rows
      invariant 0 <= i <= M.rows && |x.elems| == M.rows
      invariant forall k :: 0 <= k < i ==> x.elems[k] == old(x.elems)[k] + MatVec(M, v)[k]
      invariant forall k :: i <= k < M.rows ==> x.elems[k] == old(x.elems)[k]
    {
      var temp := RowProduct(M, i, v);
      x.elems := x.elems[i := x.elems[i] + temp];
      i := i + 1;
    }
  }

  class Level {
    const A: Csr
    const P: Csr
    const R: Csr
    const Ai: Csr

    const u: Vec
    const f: Vec
    const t: Vec
    const cg0: Vec
    const cg1: Vec
    const cg2: Vec
    const cg3: Vec

    /** Whether the K-cycle workspace cg0..cg3 was sized to the level. */
    ghost const Accel: bool

    function Vecs(): set<Vec> {
      {u, f, t, cg0, cg1, cg2, cg3}
    }

    /** The level owns seven separate vectors. */
    predicate Distinct() {
      u != f && u != t && u != cg0 && u != cg1 && u != cg2 && u != cg3 &&
      f != t && f != cg0 && f != cg1 && f != cg2 && f != cg3 &&
      t != cg0 && t != cg1 && t != cg2 && t != cg3 &&
      cg0 != cg1 && cg0 != cg2 && cg0 != cg3 &&
      cg1 != cg2 && cg1 != cg3 &&
      cg2 != cg3
    }

    /** A level above the coarsest, built at position nlevel of the hierarchy. */
    constructor Interior(a: Csr, p: Csr, r: Csr, prm: Params, nlevel: nat)
      ensures A == a && P == p && R == r && Ai == NoMatrix
      ensures fresh(Vecs()) && Distinct()
      ensures t.elems == Zeros(a.rows) && Size() == a.rows
      ensures u.elems == f.elems == (if nlevel != 0 then Zeros(a.rows) else [])
      ensures Accel <==> nlevel != 0 && KcycleAt(prm, nlevel)
      ensures cg0.elems == cg1.elems == cg2.elems == cg3.elems ==
              (if Accel then Zeros(a.rows) else [])
    {
      A, P, R, Ai := a, p, r, NoMatrix;
      u := new Vec(0);
      f := new Vec(0);
      t := new Vec(0);
      cg0 := new Vec(0);
      cg1 := new Vec(0);
      cg2 := new Vec(0);
      cg3 := new Vec(0);
      Accel := nlevel != 0 && KcycleAt(prm, nlevel);
      new;
      if nlevel != 0 {
        u.Resize(A.rows);
        f.Resize(A.rows);
        if prm.kcycle != 0 && nlevel % prm.kcycle == 0 {
          cg0.Resize(A.rows);
          cg1.Resize(A.rows);
          cg2.Resize(A.rows);
          cg3.Resize(A.rows);
        }
      }
      t.Resize(A.rows);
    }

    /** The coarsest level, holding the inverse of its operator for the direct solve. */
    constructor Coarsest(a: Csr, ai: Csr, prm: Params, nlevel: nat)
      ensures A == a && Ai == ai && P == NoMatrix && R == NoMatrix
      ensures fresh(Vecs()) && Distinct()
      ensures u.elems == f.elems == t.elems == Zeros(a.rows) && Size() == a.rows
      ensures !Accel && cg0.elems == cg1.elems == cg2.elems == cg3.elems == []
    {
      A, P, R, Ai := a, NoMatrix, NoMatrix, ai;
      u := new Vec(a.rows);
      f := new Vec(a.rows);
      t := new Vec(a.rows);
      cg0 := new Vec(0);
      cg1 := new Vec(0);
      cg2 := new Vec(0);
      cg3 := new Vec(0);
      Accel := false;
    }

    /** Fill t with one damped-Jacobi sweep applied to x. */
    method Sweep(rhs: seq<real>, x: seq<real>)
      requires Smoothable(A) && |rhs| == A.rows && |x| == A.rows && |t.elems| == A.rows
      modifies t
      ensures t.elems == Jacobi(A, rhs, x)
    {
      var n := A.rows;
      var i := 0;
      while i < n
        invariant 0 <= i <= n && |t.elems| == n
        invariant forall k :: 0 <= k < i ==> t.elems[k] == Jacobi(A, rhs, x)[k]
      {
        assert A.row[i] <= A.row[i + 1] <= A.row[n];
        var temp, diag := rhs[i], 1.0;
        var j, e := A.row[i], A.row[i + 1];
        while j < e
          invariant A.row[i] <= j <= e
          invariant temp == rhs[i] - RowSum(A, x, A.row[i], j)
          invariant diag == LastDiag(A, i, A.row[i], j)
        {
          var c, v := A.col[j], A.val[j];
          temp := temp - v * x[c];
          if c == i {
            diag := v;
          }
          j := j + 1;
        }
        assert diag == Diag(A, i) && temp == Residual(A, rhs, x)[i];
        t.elems := t.elems[i := x[i] + Omega * (temp / diag)];
        i := i + 1;
      }
    }

    /**
     * One relaxation step when x is a vector of the level's own type: the
     * sweep result is moved into x and t is left holding the old x.
     */
    method Relax(rhs: seq<real>, x: Vec)
      requires Smoothable(A) && |rhs| == A.rows && |x.elems| == A.rows && |t.elems| == A.rows
      requires x != t
      modifies t, x
      ensures x.elems == Jacobi(A, rhs, old(x.elems))
      ensures t.elems == old(x.elems)
    {
      Sweep(rhs, x.elems);
      VectorCopy(t, x);
    }

    /**
     * One relaxation step when x is a buffer of another type: the sweep result
     * is copied into x entry by entry and stays in t.
     */
    method RelaxCopy(rhs: seq<real>, x: array<real>)
      requires Smoothable(A) && |rhs| == A.rows && x.Length == A.rows && |t.elems| == A.rows
      modifies t, x
      ensures x[..] == Jacobi(A, rhs, old(x[..]))
      ensures t.elems == x[..]
    {
      Sweep(rhs, x[..]);
      VectorCopyToArray(t, x);
    }

    /** The squared Euclidean norm of rhs - A x (the square root is taken by the caller). */
    method Resid(rhs: seq<real>, x: seq<real>) returns (norm2: real)
      requires Valid(A, A.rows) && |rhs| == A.rows && |x| == A.rows
      ensures norm2 == DotUpTo(Residual(A, rhs, x), Residual(A, rhs, x), A.rows)
      ensures norm2 >= 0.0
      ensures norm2 == 0.0 <==> Residual(A, rhs, x) == Zeros(A.rows)
    {
      ghost var res := Residual(A, rhs, x);
      var n := A.rows;
      norm2 := 0.0;
      var i := 0;
      while i < n
        invariant 0 <= i <= n
        invariant norm2 == DotUpTo(res, res, i)
      {
        var temp := RowResidual(A, i, rhs[i], x);
        norm2 := norm2 + temp * temp;
        i := i + 1;
      }
      SquaredNormZeroIff(res, n);
      if norm2 == 0.0 {
        assert res == Zeros(n);
      }
    }

    /** Sum of x[i] * y[i] over the level's rows. */
    method InnerProd(x: seq<real>, y: seq<real>) returns (sum: real)
      requires |x| >= A.rows && |y| >= A.rows
      ensures sum == DotUpTo(x, y, A.rows)
    {
      sum := 0.0;
      var i := 0;
      while i < A.rows
        invariant 0 <= i <= A.rows
        invariant sum == DotUpTo(x, y, i)
      {
        sum := sum + x[i] * y[i];
        i := i + 1;
      }
    }

    /** The number of unknowns: the length of t, which both constructors size to A. */
    function Size(): (r: nat)
      reads t
      ensures |t.elems| == A.rows ==> r == A.rows
    {
      |t.elems|
    }

    /** The nonzero count of A, read off its last row pointer. */
    function Nonzeros(): (r: nat)
      requires RowPointers(A)
      ensures r == EntryCount(A, A.rows)
    {
      RowPointerCountsEntries(A, A.rows);
      A.row[A.rows]
    }
  }
}
