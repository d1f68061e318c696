// The recursive multigrid solve over a hierarchy of levels: the V-cycle, the
// K-cycle that wraps it in two flexible conjugate-gradient steps, the
// functions that say what each computes, and the properties proved of them.

module Cycling {
  import opened Sparse
  import opened LevelCpu

  // ---------------------------------------------------------------------
  // The hierarchy

  /** Every workspace vector of the levels at positions k and deeper. */
  ghost function Deep(levels: seq<Level>, k: nat): set<Vec>
    decreases |levels| - k
  {
    if k >= |levels| then {} else levels[k].Vecs() + Deep(levels, k + 1)
  }

  /** Matrix shapes of a level above the coarsest, given the next-coarser level. */
  predicate InteriorShapes(lvl: Level, nxt: Level) {
    Smoothable(lvl.A) &&
    lvl.P.rows == lvl.A.rows && Valid(lvl.P, nxt.A.rows) &&
    lvl.R.rows == nxt.A.rows && Valid(lvl.R, lvl.A.rows)
  }

  /** Matrix shapes of the coarsest level. */
  predicate CoarsestShapes(lvl: Level) {
    lvl.Ai.rows == lvl.A.rows && Valid(lvl.Ai, lvl.A.rows)
  }

  /** What one level must satisfy: its own vectors are distinct and its matrices fit the next level's. */
  ghost predicate LevelOk(levels: seq<Level>, k: nat)
    requires k < |levels|
  {
    levels[k].Distinct() &&
    (k < |levels| - 1 ==> InteriorShapes(levels[k], levels[k + 1])) &&
    (k == |levels| - 1 ==> CoarsestShapes(levels[k]))
  }

  /**
   * What does not change after construction: every level is LevelOk and no
   * vector is shared between two levels.
   */
  ghost predicate Structure(levels: seq<Level>) {
    |levels| > 0 &&
    (forall k {:trigger LevelOk(levels, k)} :: 0 <= k < |levels| ==> LevelOk(levels, k)) &&
    (forall i, j :: 0 <= i < j < |levels| ==> levels[i].Vecs() !! levels[j].Vecs())
  }

  /**
   * The workspace sizes a hierarchy must keep, as a map from each vector to
   * its length: t always, u and f below the finest level, cg as allocated.
   */
  ghost predicate Fits(levels: seq<Level>, sizes: map<Vec, nat>) {
    forall k :: 0 <= k < |levels| ==> LevelFits(levels[k], k, sizes)
  }

  ghost predicate LevelFits(lvl: Level, pos: nat, sizes: map<Vec, nat>) {
    var n, m := lvl.A.rows, if lvl.Accel then lvl.A.rows else 0;
    lvl.t in sizes && sizes[lvl.t] == n &&
    (pos > 0 ==> lvl.u in sizes && sizes[lvl.u] == n && lvl.f in sizes && sizes[lvl.f] == n) &&
    lvl.cg0 in sizes && sizes[lvl.cg0] == m && lvl.cg1 in sizes && sizes[lvl.cg1] == m &&
    lvl.cg2 in sizes && sizes[lvl.cg2] == m && lvl.cg3 in sizes && sizes[lvl.cg3] == m
  }

  /** Every vector has the length the map gives it. */
  ghost predicate Sized(sizes: map<Vec, nat>)
    reads sizes.Keys
  {
    forall v :: v in sizes ==> |v.elems| == sizes[v]
  }

  /** The test the cycle makes on the next level: is its cg[0] non-empty? */
  ghost predicate UsesKcycle(lvl: Level) {
    lvl.Accel && lvl.A.rows > 0
  }

  /** A total quotient: the K-cycle's coefficients, with a zero divisor giving 0. */
  function Quot(a: real, b: real): (q: real)
    ensures b != 0.0 ==> q * b == a
    ensures b == 0.0 ==> q == 0.0
  {
    if b == 0.0 then 0.0 else a / b
  }

  /** No vector of level i belongs to a level at position k > i or deeper. */
  lemma {:induction false} DeepAfter(levels: seq<Level>, i: nat, k: nat)
    requires Structure(levels) && i < k && i < |levels|
    ensures levels[i].Vecs() !! Deep(levels, k)
    decreases |levels| - k
  {
    if k < |levels| {
      DeepAfter(levels, i, k + 1);
    }
  }

  // ---------------------------------------------------------------------
  // What the cycles compute

  ghost function N(levels: seq<Level>, idx: nat): nat
    requires idx < |levels|
  {
    levels[idx].A.rows
  }

  /** rhs - A x at a level above the coarsest. */
  ghost function LevelResidual(levels: seq<Level>, idx: nat, rhs: seq<real>, x: seq<real>): (r: seq<real>)
    requires Structure(levels) && idx < |levels| - 1
    requires |rhs| == N(levels, idx) && |x| == N(levels, idx)
    ensures LevelOk(levels, idx) && r == Residual(levels[idx].A, rhs, x)
  {
    assert LevelOk(levels, idx);
    Residual(levels[idx].A, rhs, x)
  }

  /** The V-cycle at level idx applied to rhs from the guess x. */
  ghost function CycleF(levels: seq<Level>, idx: nat, prm: Params, rhs: seq<real>, x: seq<real>): (y: seq<real>)
    requires Structure(levels) && idx < |levels|
    requires |rhs| == N(levels, idx) && |x| == N(levels, idx)
    ensures |y| == N(levels, idx)
    decreases |levels| - idx, 2, 0
  {
    assert LevelOk(levels, idx);
    if idx == |levels| - 1 then MatVec(levels[idx].Ai, rhs)
    else CycleRep(levels, idx, prm, rhs, x, prm.ncycle)
  }

  /** k repetitions of the V-cycle body. */
  ghost function CycleRep(levels: seq<Level>, idx: nat, prm: Params, rhs: seq<real>, x: seq<real>, k: nat): (y: seq<real>)
    requires Structure(levels) && idx < |levels| - 1
    requires |rhs| == N(levels, idx) && |x| == N(levels, idx)
    ensures |y| == N(levels, idx)
    decreases |levels| - idx, 1, k
  {
    if k == 0 then x
    else CycleStep(levels, idx, prm, rhs, CycleRep(levels, idx, prm, rhs, x, k - 1))
  }

  /** The coarse correction: the next level's cycle applied to fc from a zero guess. */
  ghost function Correction(levels: seq<Level>, idx: nat, prm: Params, fc: seq<real>): (uc: seq<real>)
    requires Structure(levels) && idx < |levels|
    requires |fc| == N(levels, idx)
    ensures |uc| == N(levels, idx)
    decreases |levels| - idx, 6, 0
  {
    if UsesKcycle(levels[idx]) then KCycleF(levels, idx, prm, fc, Zeros(N(levels, idx)))
    else CycleF(levels, idx, prm, fc, Zeros(N(levels, idx)))
  }

  /** One repetition: pre-smooth, restrict the residual, correct, prolongate, post-smooth. */
  ghost function CycleStep(levels: seq<Level>, idx: nat, prm: Params, rhs: seq<real>, x: seq<real>): (y: seq<real>)
    requires Structure(levels) && idx < |levels| - 1
    requires |rhs| == N(levels, idx) && |x| == N(levels, idx)
    ensures |y| == N(levels, idx)
    decreases |levels| - idx, 0, 0
  {
    assert LevelOk(levels, idx);
    var lvl := levels[idx];
    var x1 := RelaxN(lvl.A, rhs, x, prm.npre);
    var t := Residual(lvl.A, rhs, x1);
    var fc := MatVec(lvl.R, t);
    var uc := Correction(levels, idx + 1, prm, fc);
    var x2 := AddVec(x1, MatVec(lvl.P, uc));
    RelaxN(lvl.A, rhs, x2, prm.npost)
  }

  /** The K-cycle's loop state: solution, residual, direction and the last rho. */
  datatype KState = KState(x: seq<real>, r: seq<real>, p: seq<real>, rho: real)

  /** The K-cycle at level idx applied to rhs from the guess x. */
  ghost function KCycleF(levels: seq<Level>, idx: nat, prm: Params, rhs: seq<real>, x: seq<real>): (y: seq<real>)
    requires Structure(levels) && idx < |levels|
    requires |rhs| == N(levels, idx) && |x| == N(levels, idx)
    ensures |y| == N(levels, idx)
    decreases |levels| - idx, 5, 0
  {
    assert LevelOk(levels, idx);
    if idx == |levels| - 1 then MatVec(levels[idx].Ai, rhs)
    else KIters(levels, idx, prm, rhs, x, 2).x
  }

  /** The state after the first k conjugate-gradient steps. */
  ghost function KIters(levels: seq<Level>, idx: nat, prm: Params, rhs: seq<real>, x: seq<real>, k: nat): (st: KState)
    requires Structure(levels) && idx < |levels| - 1
    requires |rhs| == N(levels, idx) && |x| == N(levels, idx)
    ensures |st.x| == |st.r| == |st.p| == N(levels, idx)
    decreases |levels| - idx, 4, k
  {
    if k == 0 then KState(x, rhs, Zeros(N(levels, idx)), 0.0)
    else KStep(levels, idx, prm, KIters(levels, idx, prm, rhs, x, k - 1), k - 1)
  }

  /**
   * Conjugate-gradient step number iter: precondition the residual with a
   * V-cycle at the same level, then update the direction, x and r.
   */
  ghost function KStep(levels: seq<Level>, idx: nat, prm: Params, st: KState, iter: nat): (st': KState)
    requires Structure(levels) && idx < |levels| - 1
    requires |st.x| == |st.r| == |st.p| == N(levels, idx)
    ensures |st'.x| == |st'.r| == |st'.p| == N(levels, idx)
    decreases |levels| - idx, 3, 0
  {
    assert LevelOk(levels, idx);
    KUpdateF(levels[idx].A, st, CycleF(levels, idx, prm, st.r, Zeros(N(levels, idx))), iter)
  }

  /**
   * The rest of a conjugate-gradient step once s, the preconditioned
   * residual, is known: the new direction p, q = A p, and the step along p.
   */
  function KUpdateF(A: Csr, st: KState, s: seq<real>, iter: nat): (st': KState)
    requires Valid(A, A.rows) && |st.x| == |st.r| == |st.p| == |s| == A.rows
    ensures |st'.x| == |st'.r| == |st'.p| == A.rows
  {
    var n := A.rows;
    var rho1 := DotUpTo(st.r, s, n);
    var p := if iter == 0 then s else AddScaled(s, Quot(rho1, st.rho), st.p);
    var q := MatVec(A, p);
    var alpha := Quot(rho1, DotUpTo(q, p, n));
    KState(AddScaled(st.x, alpha, p), SubScaled(st.r, alpha, q), p, rho1)
  }

  // ---------------------------------------------------------------------
  // The cycles

  /** What every cycle method needs of the hierarchy and its workspace. */
  ghost predicate Ready(levels: seq<Level>, sizes: map<Vec, nat>, idx: nat)
    reads sizes.Keys
  {
    Structure(levels) && Fits(levels, sizes) && Sized(sizes) && idx < |levels|
  }

  /** k relaxation steps at one level. */
  method RelaxTimes(lvl: Level, rhs: seq<real>, x: Vec, k: nat)
    requires Smoothable(lvl.A) && |rhs| == lvl.A.rows && |x.elems| == lvl.A.rows
    requires |lvl.t.elems| == lvl.A.rows && x != lvl.t
    modifies lvl.t, x
    ensures x.elems == RelaxN(lvl.A, rhs, old(x.elems), k)
    ensures |lvl.t.elems| == lvl.A.rows
  {
    var i := 0;
    while i < k
      invariant i <= k && |lvl.t.elems| == lvl.A.rows
      invariant x.elems == RelaxN(lvl.A, rhs, old(x.elems), i)
    {
      lvl.Relax(rhs, x);
      i := i + 1;
    }
  }

  /** The V-cycle at level idx: x becomes CycleF of rhs and the old x. */
  method Cycle(levels: seq<Level>, ghost sizes: map<Vec, nat>, idx: nat, prm: Params, rhs: seq<real>, x: Vec)
    requires Ready(levels, sizes, idx)
    requires |rhs| == N(levels, idx) && |x.elems| == N(levels, idx)
    requires x != levels[idx].t && x !in Deep(levels, idx + 1)
    modifies x, levels[idx].t, Deep(levels, idx + 1)
    ensures Sized(sizes) && |x.elems| == N(levels, idx)
    ensures x.elems == CycleF(levels, idx, prm, rhs, old(x.elems))
    decreases |levels| - idx, 1
  {
    var lvl := levels[idx];
    if idx + 1 < |levels| {
      var j := 0;
      while j < prm.ncycle
        invariant j <= prm.ncycle
        invariant Sized(sizes) && |x.elems| == lvl.A.rows
        invariant x.elems == CycleRep(levels, idx, prm, rhs, old(x.elems), j)
      {
        CycleOnce(levels, sizes, idx, prm, rhs, x);
        j := j + 1;
      }
    } else {
      assert LevelOk(levels, idx);
      MatVecInto(lvl.Ai, rhs, x);
    }
  }

  /**
   * The first half of a V-cycle repetition: pre-smooth x, restrict the
   * residual into the next level's f, and clear the next level's u.
   */
  method Restrict(lvl: Level, nxt: Level, ghost sizes: map<Vec, nat>, rhs: seq<real>, x: Vec, npre: nat)
    requires Sized(sizes)
    requires InteriorShapes(lvl, nxt) && lvl.Distinct() && nxt.Distinct()
    requires lvl.Vecs() !! nxt.Vecs() && x !in nxt.Vecs() && x != lvl.t
    requires |rhs| == lvl.A.rows && |x.elems| == lvl.A.rows && |lvl.t.elems| == lvl.A.rows
    requires |nxt.f.elems| == nxt.A.rows && |nxt.u.elems| == nxt.A.rows
    modifies x, lvl.t, nxt.f, nxt.u
    ensures Sized(sizes)
    ensures x.elems == RelaxN(lvl.A, rhs, old(x.elems), npre)
    ensures nxt.f.elems == MatVec(lvl.R, Residual(lvl.A, rhs, x.elems))
    ensures lvl.t.elems == Residual(lvl.A, rhs, x.elems)
    ensures nxt.u.elems == Zeros(nxt.A.rows)
  {
    RelaxTimes(lvl, rhs, x, npre);
    ResidualInto(lvl.A, rhs, x.elems, lvl.t);
    MatVecInto(lvl.R, lvl.t.elems, nxt.f);
    nxt.u.elems := Zeros(nxt.A.rows);
  }

  /** The second half: add the prolongated correction uc to x, then post-smooth. */
  method Prolongate(lvl: Level, ghost sizes: map<Vec, nat>, rhs: seq<real>, uc: seq<real>, x: Vec, npost: nat)
    requires Sized(sizes)
    requires Smoothable(lvl.A) && lvl.P.rows == lvl.A.rows && Valid(lvl.P, |uc|) && x != lvl.t
    requires |rhs| == lvl.A.rows && |x.elems| == lvl.A.rows && |lvl.t.elems| == lvl.A.rows
    modifies x, lvl.t
    ensures x.elems == RelaxN(lvl.A, rhs, AddVec(old(x.elems), MatVec(lvl.P, uc)), npost)
    ensures Sized(sizes) && |lvl.t.elems| == lvl.A.rows && |x.elems| == lvl.A.rows
  {
    AddMatVecInto(lvl.P, uc, x);
    RelaxTimes(lvl, rhs, x, npost);
  }

  /**
   * The coarse correction at level idx (below the finest): u becomes the
   * cycle the level is set up for, applied to f from the zero u.
   */
  method Correct(levels: seq<Level>, ghost sizes: map<Vec, nat>, idx: nat, prm: Params)
    requires Ready(levels, sizes, idx) && 0 < idx
    requires levels[idx].u.elems == Zeros(N(levels, idx))
    modifies levels[idx].u, levels[idx].t, levels[idx].cg0, levels[idx].cg1, levels[idx].cg2, levels[idx].cg3
    modifies Deep(levels, idx + 1)
    ensures Sized(sizes) && levels[idx].f.elems == old(levels[idx].f.elems)
    ensures levels[idx].u.elems == Correction(levels, idx, prm, levels[idx].f.elems)
    decreases |levels| - idx, 4
  {
    var lvl := levels[idx];
    assert LevelOk(levels, idx) && LevelFits(lvl, idx, sizes);
    DeepAfter(levels, idx, idx + 1);
    if |lvl.cg0.elems| == 0 {
      Cycle(levels, sizes, idx, prm, lvl.f.elems, lvl.u);
    } else {
      KCycle(levels, sizes, idx, prm, lvl.f.elems, lvl.u);
    }
  }

  /** One repetition of the V-cycle body at a level above the coarsest. */
  method CycleOnce(levels: seq<Level>, ghost sizes: map<Vec, nat>, idx: nat, prm: Params, rhs: seq<real>, x: Vec)
    requires Ready(levels, sizes, idx) && idx < |levels| - 1
    requires |rhs| == N(levels, idx) && |x.elems| == N(levels, idx)
    requires x != levels[idx].t && x !in Deep(levels, idx + 1)
    modifies x, levels[idx].t, Deep(levels, idx + 1)
    ensures Sized(sizes) && |x.elems| == N(levels, idx)
    ensures x.elems == CycleStep(levels, idx, prm, rhs, old(x.elems))
    decreases |levels| - idx, 0
  {
    var lvl, nxt := levels[idx], levels[idx + 1];
    assert LevelOk(levels, idx) && LevelOk(levels, idx + 1);
    assert LevelFits(lvl, idx, sizes) && LevelFits(nxt, idx + 1, sizes);
    DeepAfter(levels, idx + 1, idx + 2);
    DeepAfter(levels, idx, idx + 1);
    assert Deep(levels, idx + 1) == nxt.Vecs() + Deep(levels, idx + 2);
    Restrict(lvl, nxt, sizes, rhs, x, prm.npre);
    Correct(levels, sizes, idx + 1, prm);
    Prolongate(lvl, sizes, rhs, nxt.u.elems, x, prm.npost);
  }

  /** The K-cycle at level idx: x becomes KCycleF of rhs and the old x. */
  method KCycle(levels: seq<Level>, ghost sizes: map<Vec, nat>, idx: nat, prm: Params, rhs: seq<real>, x: Vec)
    requires Ready(levels, sizes, idx)
    requires |rhs| == N(levels, idx) && |x.elems| == N(levels, idx)
    requires idx < |levels| - 1 ==> |levels[idx].cg0.elems| == N(levels, idx)
    requires x !in {levels[idx].t, levels[idx].cg0, levels[idx].cg1, levels[idx].cg2, levels[idx].cg3}
    requires x !in Deep(levels, idx + 1)
    modifies x, levels[idx].t, levels[idx].cg0, levels[idx].cg1, levels[idx].cg2, levels[idx].cg3
    modifies Deep(levels, idx + 1)
    ensures Sized(sizes) && |x.elems| == N(levels, idx)
    ensures x.elems == KCycleF(levels, idx, prm, rhs, old(x.elems))
    decreases |levels| - idx, 3
  {
    var lvl := levels[idx];
    if idx + 1 < |levels| {
      assert LevelFits(lvl, idx, sizes);
      lvl.cg0.elems := rhs;
      var rho1 := 0.0;
      ghost var st := KIters(levels, idx, prm, rhs, old(x.elems), 0);
      var iter := 0;
      while iter < 2
        invariant iter <= 2 && st == KIters(levels, idx, prm, rhs, old(x.elems), iter)
        invariant Sized(sizes) && |x.elems| == lvl.A.rows
        invariant x.elems == st.x && lvl.cg0.elems == st.r && rho1 == st.rho
        invariant iter > 0 ==> lvl.cg2.elems == st.p
      {
        rho1 := KCycleStep(levels, sizes, idx, prm, x, iter, rho1, st);
        st := KStep(levels, idx, prm, st, iter);
        iter := iter + 1;
      }
    } else {
      assert LevelOk(levels, idx);
      MatVecInto(lvl.Ai, rhs, x);
    }
  }

  /**
   * Step number iter of the K-cycle, on the buffers r = cg0, s = cg1,
   * p = cg2, q = cg3; rho is the previous step's <r, s>, the result this one's.
   */
  method KCycleStep(levels: seq<Level>, ghost sizes: map<Vec, nat>, idx: nat, prm: Params,
                    x: Vec, iter: nat, rho: real, ghost st: KState) returns (rho1: real)
    requires Ready(levels, sizes, idx) && idx < |levels| - 1
    requires |levels[idx].cg0.elems| == N(levels, idx) && |x.elems| == N(levels, idx)
    requires x !in {levels[idx].t, levels[idx].cg0, levels[idx].cg1, levels[idx].cg2, levels[idx].cg3}
    requires x !in Deep(levels, idx + 1)
    requires |st.x| == |st.r| == |st.p| == N(levels, idx)
    requires x.elems == st.x && levels[idx].cg0.elems == st.r && rho == st.rho
    requires iter > 0 ==> levels[idx].cg2.elems == st.p
    modifies x, levels[idx].t, levels[idx].cg0, levels[idx].cg1, levels[idx].cg2, levels[idx].cg3
    modifies Deep(levels, idx + 1)
    ensures Sized(sizes)
    ensures KStep(levels, idx, prm, st, iter) == KState(x.elems, levels[idx].cg0.elems, levels[idx].cg2.elems, rho1)
    decreases |levels| - idx, 2
  {
    var lvl := levels[idx];
    assert LevelOk(levels, idx) && LevelFits(lvl, idx, sizes);
    DeepAfter(levels, idx, idx + 1);
    lvl.cg1.elems := Zeros(lvl.A.rows);
    Cycle(levels, sizes, idx, prm, lvl.cg0.elems, lvl.cg1);
    rho1 := KUpdate(lvl, sizes, x, iter, rho, st);
  }

  /** The method form of KUpdateF, with s already in cg1. */
  method KUpdate(lvl: Level, ghost sizes: map<Vec, nat>, x: Vec, iter: nat, rho: real, ghost st: KState) returns (rho1: real)
    requires Sized(sizes) && Valid(lvl.A, lvl.A.rows) && lvl.Distinct() && x !in {lvl.cg0, lvl.cg1, lvl.cg2, lvl.cg3}
    requires |st.x| == |st.r| == |st.p| == lvl.A.rows && |lvl.cg1.elems| == lvl.A.rows
    requires |lvl.cg2.elems| == lvl.A.rows && |lvl.cg3.elems| == lvl.A.rows
    requires x.elems == st.x && lvl.cg0.elems == st.r && rho == st.rho
    requires iter > 0 ==> lvl.cg2.elems == st.p
    modifies x, lvl.cg0, lvl.cg2, lvl.cg3
    ensures Sized(sizes)
    ensures KUpdateF(lvl.A, st, lvl.cg1.elems, iter) == KState(x.elems, lvl.cg0.elems, lvl.cg2.elems, rho1)
  {
    var n := lvl.A.rows;
    var r, s, p, q := lvl.cg0, lvl.cg1, lvl.cg2, lvl.cg3;
    var rho2 := rho;
    rho1 := lvl.InnerProd(r.elems, s.elems);
    if iter != 0 {
      var beta := Quot(rho1, rho2);
      p.elems := AddScaled(s.elems, beta, p.elems);
    } else {
      p.elems := s.elems;
    }
    MatVecInto(lvl.A, p.elems, q);
    var qp := lvl.InnerProd(q.elems, p.elems);
    var alpha := Quot(rho1, qp);
    x.elems := AddScaled(x.elems, alpha, p.elems);
    r.elems := SubScaled(r.elems, alpha, q.elems);
  }

  // ---------------------------------------------------------------------
  // Properties of the cycles

  /** The test the V-cycle makes on the next level picks the K-cycle exactly when that level is set up for it. */
  lemma DispatchTest(levels: seq<Level>, sizes: map<Vec, nat>, idx: nat)
    requires Ready(levels, sizes, idx)
    ensures |levels[idx].cg0.elems| != 0 <==> UsesKcycle(levels[idx])
  {
    assert LevelFits(levels[idx], idx, sizes);
  }

  /** At the coarsest level both cycles are the direct solve Ai * rhs, whatever the initial x. */
  lemma CoarsestSolves(levels: seq<Level>, idx: nat, prm: Params, rhs: seq<real>, x: seq<real>)
    requires Structure(levels) && idx == |levels| - 1
    requires |rhs| == N(levels, idx) && |x| == N(levels, idx)
    ensures LevelOk(levels, idx) && Valid(levels[idx].Ai, |rhs|)
    ensures CycleF(levels, idx, prm, rhs, x) == MatVec(levels[idx].Ai, rhs)
    ensures KCycleF(levels, idx, prm, rhs, x) == MatVec(levels[idx].Ai, rhs)
  {
    assert LevelOk(levels, idx);
  }

  /** With ncycle == 0 the V-cycle above the coarsest level leaves x alone. */
  lemma NoRepetitions(levels: seq<Level>, idx: nat, prm: Params, rhs: seq<real>, x: seq<real>)
    requires Structure(levels) && idx < |levels| - 1 && prm.ncycle == 0
    requires |rhs| == N(levels, idx) && |x| == N(levels, idx)
    ensures CycleF(levels, idx, prm, rhs, x) == x
  {
  }

  /** Adding a zero vector changes nothing. */
  lemma AddZeros(x: seq<real>)
    ensures AddVec(x, Zeros(|x|)) == x
  {
  }

  /**
   * If x already solves A x = rhs and the next level corrects a zero
   * right-hand side by zero, a repetition of the V-cycle body leaves x alone.
   */
  lemma StepFixesSolution(levels: seq<Level>, idx: nat, prm: Params, rhs: seq<real>, x: seq<real>)
    requires Structure(levels) && idx < |levels| - 1
    requires |rhs| == N(levels, idx) && |x| == N(levels, idx)
    requires LevelResidual(levels, idx, rhs, x) == Zeros(N(levels, idx))
    requires Correction(levels, idx + 1, prm, Zeros(N(levels, idx + 1))) == Zeros(N(levels, idx + 1))
    ensures CycleStep(levels, idx, prm, rhs, x) == x
  {
    var lvl := levels[idx];
    var nc := N(levels, idx + 1);
    RelaxNFixesSolution(lvl.A, rhs, x, prm.npre);
    MatVecOfZeros(lvl.R, lvl.A.rows);
    MatVecOfZeros(lvl.P, nc);
    AddZeros(x);
    RelaxNFixesSolution(lvl.A, rhs, x, prm.npost);
  }

  lemma {:induction false} RepFixesSolution(levels: seq<Level>, idx: nat, prm: Params, rhs: seq<real>, x: seq<real>, k: nat)
    requires Structure(levels) && idx < |levels| - 1
    requires |rhs| == N(levels, idx) && |x| == N(levels, idx)
    requires LevelResidual(levels, idx, rhs, x) == Zeros(N(levels, idx))
    requires Correction(levels, idx + 1, prm, Zeros(N(levels, idx + 1))) == Zeros(N(levels, idx + 1))
    ensures CycleRep(levels, idx, prm, rhs, x, k) == x
  {
    if k > 0 {
      RepFixesSolution(levels, idx, prm, rhs, x, k - 1);
      StepFixesSolution(levels, idx, prm, rhs, x);
    }
  }

  /** From the zero state, every conjugate-gradient step of the corrected K-cycle stays at zero. */
  lemma {:induction false} ZeroKIters(levels: seq<Level>, idx: nat, prm: Params, k: nat)
    requires Structure(levels) && idx < |levels| - 1
    requires CycleF(levels, idx, prm, Zeros(N(levels, idx)), Zeros(N(levels, idx))) == Zeros(N(levels, idx))
    ensures KIters(levels, idx, prm, Zeros(N(levels, idx)), Zeros(N(levels, idx)), k)
         == KState(Zeros(N(levels, idx)), Zeros(N(levels, idx)), Zeros(N(levels, idx)), 0.0)
  {
    if k > 0 {
      var n := N(levels, idx);
      var z := Zeros(n);
      ZeroKIters(levels, idx, prm, k - 1);
      assert LevelOk(levels, idx);
      var A := levels[idx].A;
      DotWithZeros(z, n, n);
      MatVecOfZeros(A, n);
      assert AddScaled(z, 0.0, z) == z;
      assert SubScaled(z, 0.0, z) == z;
    }
  }

  /**
   * Started from a zero guess, the K-cycle's r is the true residual
   * rhs - A x after every step, for every right-hand side: r starts as rhs
   * because the caller has cleared x.
   */
  lemma {:induction false} KItersTrackResidual(levels: seq<Level>, idx: nat, prm: Params, rhs: seq<real>, k: nat)
    requires Structure(levels) && idx < |levels| - 1 && |rhs| == N(levels, idx)
    ensures var st := KIters(levels, idx, prm, rhs, Zeros(N(levels, idx)), k);
            st.r == LevelResidual(levels, idx, rhs, st.x)
  {
    var n := N(levels, idx);
    assert LevelOk(levels, idx);
    var A := levels[idx].A;
    if k == 0 {
      ResidualAtZeros(A, n, rhs);
    } else {
      KItersTrackResidual(levels, idx, prm, rhs, k - 1);
      var st := KIters(levels, idx, prm, rhs, Zeros(n), k - 1);
      var s := CycleF(levels, idx, prm, st.r, Zeros(n));
      var rho1 := DotUpTo(st.r, s, n);
      var p := if k - 1 == 0 then s else AddScaled(s, Quot(rho1, st.rho), st.p);
      var alpha := Quot(rho1, DotUpTo(MatVec(A, p), p, n));
      ResidualAddScaled(A, rhs, st.x, alpha, p);
    }
  }

  /**
   * Both cycles, and so the coarse correction, map a zero right-hand side
   * and a zero guess to zero, at every level of the hierarchy.
   */
  lemma {:induction false} ZeroInZeroOut(levels: seq<Level>, idx: nat, prm: Params)
    requires Structure(levels) && idx < |levels|
    ensures CycleF(levels, idx, prm, Zeros(N(levels, idx)), Zeros(N(levels, idx))) == Zeros(N(levels, idx))
    ensures KCycleF(levels, idx, prm, Zeros(N(levels, idx)), Zeros(N(levels, idx))) == Zeros(N(levels, idx))
    ensures Correction(levels, idx, prm, Zeros(N(levels, idx))) == Zeros(N(levels, idx))
    decreases |levels| - idx
  {
    var n := N(levels, idx);
    assert LevelOk(levels, idx);
    if idx == |levels| - 1 {
      MatVecOfZeros(levels[idx].Ai, n);
    } else {
      ZeroInZeroOut(levels, idx + 1, prm);
      ZeroSolvesZero(levels[idx].A);
      RepFixesSolution(levels, idx, prm, Zeros(n), Zeros(n), prm.ncycle);
      ZeroKIters(levels, idx, prm, 2);
    }
  }

  /** The V-cycle leaves an exact solution unchanged. */
  lemma CycleFixesSolution(levels: seq<Level>, idx: nat, prm: Params, rhs: seq<real>, x: seq<real>)
    requires Structure(levels) && idx < |levels| - 1
    requires |rhs| == N(levels, idx) && |x| == N(levels, idx)
    requires LevelResidual(levels, idx, rhs, x) == Zeros(N(levels, idx))
    ensures CycleF(levels, idx, prm, rhs, x) == x
  {
    ZeroInZeroOut(levels, idx + 1, prm);
    RepFixesSolution(levels, idx, prm, rhs, x, prm.ncycle);
  }

  // ---------------------------------------------------------------------
  // The unguarded divisions of the K-cycle

  /**
   * The first conjugate-gradient step as the source writes it: p = s and
   * alpha = rho1 / <A p, p>, with no guard on the divisor.
   */
  function AsWrittenFirstStep(A: Csr, st: KState, s: seq<real>): (st': KState)
    requires Valid(A, A.rows) && |st.x| == |st.r| == |st.p| == |s| == A.rows
    requires DotUpTo(MatVec(A, s), s, A.rows) != 0.0
    ensures st' == KUpdateF(A, st, s, 0)
  {
    var n := A.rows;
    var rho1 := DotUpTo(st.r, s, n);
    var q := MatVec(A, s);
    var alpha := rho1 / DotUpTo(q, s, n);
    KState(AddScaled(st.x, alpha, s), SubScaled(st.r, alpha, q), s, rho1)
  }

  /**
   * A K-cycle level handed a zero right-hand side (as happens once x solves
   * the finer level exactly) reaches the first step with <A p, p> == 0 and
   * rho1 == 0: the source's alpha is 0 / 0.
   */
  lemma FirstStepDividesZeroByZero(levels: seq<Level>, idx: nat, prm: Params)
    requires Structure(levels) && idx < |levels| - 1
    ensures LevelOk(levels, idx)
    ensures var z := Zeros(N(levels, idx));
            var s := CycleF(levels, idx, prm, z, z);
            var st := KIters(levels, idx, prm, z, z, 0);
            DotUpTo(st.r, s, N(levels, idx)) == 0.0 &&
            DotUpTo(MatVec(levels[idx].A, s), s, N(levels, idx)) == 0.0
  {
    var n := N(levels, idx);
    var z := Zeros(n);
    assert LevelOk(levels, idx);
    ZeroInZeroOut(levels, idx, prm);
    MatVecOfZeros(levels[idx].A, n);
    DotWithZeros(z, n, n);
  }
}
