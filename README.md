# amgcl CPU level and multigrid cycles, modelled in Dafny

This project models `amgcl/level_cpu.hpp`. The file defines one level of an
algebraic-multigrid (AMG) hierarchy for main-memory vectors, and the recursive
solve over a sequence of such levels. A level holds:

- its system matrix `A`;
- the prolongation `P` and restriction `R` to and from the next-coarser level;
- at the coarsest level, the inverse `Ai`;
- the workspace vectors `u`, `f`, `t` and `cg[0..3]`.

The operations are:

- a damped-Jacobi relaxation step (`relax`);
- the residual norm (`resid`) and an inner product (`inner_prod`);
- the V-cycle (`cycle`);
- the K-cycle (`kcycle`): two flexible conjugate-gradient steps preconditioned
  by a V-cycle on the same level;
- the accessors `size` and `nonzeros`.

The project has three modules:

- `Sparse` (`sparse.dfy`) holds the compressed-row matrix and the functions that
  specify everything else. These cover the matrix-vector product, the residual,
  the diagonal as the sweep finds it, the Jacobi sweep with its 0.72 damping,
  and the inner product. It also proves their properties.
- `LevelCpu` (`level.dfy`) holds the level as a class:
  - Its matrices are constants.
  - Each workspace vector is a `Vec` object whose contents the methods
    reassign, so `std::swap` of two vectors is an exchange of contents.
  - Construction, the sweep, `relax` with both `vector_copy` paths, `resid`,
    `inner_prod`, `size` and `nonzeros` are methods and functions of the class.
  - The row loops of the cycles are separate methods, each proved against the
    function that specifies it.
- `Cycling` (`cycle.dfy`) holds the hierarchy, which is a sequence of levels,
  and the cycles:
  - `CycleF`, `KCycleF` and their helpers say what a cycle computes.
  - `Cycle`, `CycleOnce` and `KCycle` are mutually recursive methods that do
    the work on the levels' vectors in place. Each is proved to leave `x` equal
    to that function's value.
  - A ghost map from each workspace vector to its length, together with
    `Fits`, records the sizes construction gives the vectors. This is what
    makes the test "`cg[0]` is non-empty" select the K-cycle exactly on the
    levels built for it.
  - The lemmas prove that the V-cycle leaves an exact solution unchanged, that
    both cycles map zero to zero, that the K-cycle's `r` is the true residual
    when it starts from a zero guess, and that the K-cycle as written divides
    zero by zero.

Values of the floating-point type are modelled as exact `real`s.

## Model

| member | source | states |
|---|---|---|
| LevelCpu.Level.Interior | amgcl/level_cpu.hpp:67-80 | `t` has `A.rows` zero entries. `u` and `f` have `A.rows` entries iff `nlevel != 0`, otherwise they are empty. All four `cg` vectors have `A.rows` entries iff `nlevel != 0 && kcycle != 0 && nlevel % kcycle == 0`, otherwise they are empty. The seven vectors are fresh and distinct, and `size()` is `A.rows`. |
| LevelCpu.Level.Coarsest | amgcl/level_cpu.hpp:84-86 | `u`, `f` and `t` have `A.rows` zero entries and every `cg` vector is empty. `P` and `R` are left empty and `Ai` is stored. |
| LevelCpu.Vec.constructor | amgcl/level_cpu.hpp:85 | A vector built with `n` entries holds `n` value-initialised zeros, as `u(A.rows)`, `f(A.rows)` and `t(A.rows)` are. |
| LevelCpu.Vec.Resize | amgcl/level_cpu.hpp:70-79 | `resize(n)` leaves exactly `n` entries. It keeps the first `n` old entries and pads with value-initialised zeros. |
| LevelCpu.Level.Sweep | amgcl/level_cpu.hpp:91-108 | For each row `i`, `t[i] = x[i] + 0.72 * ((rhs[i] - sum of A.val[j] * x[A.col[j]] over row i) / diag_i)`. Only the incoming `x` is read, so this is Jacobi, not Gauss-Seidel. The diagonal entry is included in the sum. `diag_i` is the last entry of row `i` whose column is `i`, or 1 if there is none. |
| LevelCpu.Level.Relax | amgcl/level_cpu.hpp:89-111 | Same-type path (the swap overload at lines 291-294): `x` becomes the Jacobi sweep of the old `x`, and after the swap `t` holds the old `x`. |
| LevelCpu.Level.RelaxCopy | amgcl/level_cpu.hpp:89-111 | Copy path (the copy overload at lines 296-299): `x` becomes the same Jacobi sweep as on the swap path. `t` keeps the new values. |
| LevelCpu.VectorCopy | amgcl/level_cpu.hpp:291-294 | The two vectors exchange their contents. |
| LevelCpu.VectorCopyToArray | amgcl/level_cpu.hpp:296-299 | The first `|u|` entries of `v` become `u`, and the rest of `v` is unchanged. |
| Sparse.JacobiFixedIffSolved | amgcl/level_cpu.hpp:94-108 | A sweep leaves `x` unchanged exactly when `x` solves `A x = rhs` (both directions). |
| Sparse.RelaxNFixesSolution | amgcl/level_cpu.hpp:145-187 | Any number of sweeps leaves an exact solution unchanged. |
| LevelCpu.Level.Resid | amgcl/level_cpu.hpp:114-130 | The accumulated value is the sum over rows of the squared entries of `rhs - A x`. It is non-negative, and it is zero iff the residual is the zero vector. `x` is not modified. |
| Sparse.SquaredNormZeroIff | amgcl/level_cpu.hpp:120-127 | A sum of squares over a prefix is `>= 0`, and it is 0 iff every entry of the prefix is 0. |
| LevelCpu.Level.InnerProd | amgcl/level_cpu.hpp:301-312 | The result is the sum of `x[i] * y[i]` over `i < A.rows`. |
| Sparse.DotSymmetric | amgcl/level_cpu.hpp:301-312 | The inner product does not depend on the order of its arguments. |
| LevelCpu.Level.Size | amgcl/level_cpu.hpp:271-273 | `size()` is `A.rows` whenever `t` has the length both constructors give it. |
| LevelCpu.Level.Nonzeros | amgcl/level_cpu.hpp:275-277 | The nonzero count is the number of stored entries, summed row by row. |
| Sparse.RowPointerCountsEntries | amgcl/level_cpu.hpp:275-277 | `row[k]` equals the number of entries in the first `k` rows. |
| LevelCpu.RowProduct | amgcl/level_cpu.hpp:160-166 | The accumulated sum over one row is entry `i` of `M * x`. |
| LevelCpu.RowResidual | amgcl/level_cpu.hpp:149-155 | Subtracting a row's entries one at a time from `b` gives `b` minus entry `i` of `M * x`. |
| LevelCpu.ResidualInto | amgcl/level_cpu.hpp:147-156 | `lvl->t` becomes `rhs - A x`. |
| LevelCpu.MatVecInto | amgcl/level_cpu.hpp:158-167 | `nxt->f` becomes `R t`. On the coarsest level `x` becomes `Ai rhs`. |
| LevelCpu.AddMatVecInto | amgcl/level_cpu.hpp:176-185 | `x` becomes `x + P u`, with `u` taken from the next level. |
| Sparse.MatVecOfZeros | amgcl/level_cpu.hpp:158-167 | Every CSR product maps the zero vector to the zero vector. |
| Sparse.ZeroSolvesZero | amgcl/level_cpu.hpp:147-156 | The zero vector has a zero residual against a zero right-hand side. |
| Cycling.Cycle | amgcl/level_cpu.hpp:134-197 | `x` becomes `CycleF` of `rhs` and the old `x`. The workspace keeps every length construction gave it. |
| Cycling.CycleOnce | amgcl/level_cpu.hpp:145-187 | One repetition does the following: `npre` sweeps, then `t = rhs - A x`, then `nxt.f = R t`, then zero `nxt.u`, then the coarse correction, then `x += P nxt.u`, then `npost` sweeps. |
| Cycling.Restrict | amgcl/level_cpu.hpp:145-169 | After `npre` sweeps, `lvl.t` is `rhs - A x` at the smoothed `x`, `nxt.f` is `R` times that residual, and `nxt.u` is zero. |
| Cycling.RelaxTimes | amgcl/level_cpu.hpp:145 | `x` becomes `k` successive Jacobi sweeps of the old `x`. The same loop serves the `npost` sweeps at line 187. |
| Cycling.Correct | amgcl/level_cpu.hpp:171-174 | `nxt.u` becomes the K-cycle of `nxt.f` if `cg[0]` is non-empty, otherwise the V-cycle of `nxt.f`, either way from a zero guess. `nxt.f` is unchanged. |
| Cycling.Prolongate | amgcl/level_cpu.hpp:176-187 | `x` becomes `npost` sweeps applied to `x + P uc`. |
| Cycling.DispatchTest | amgcl/level_cpu.hpp:171-174 | `cg[0]` is non-empty exactly when the level was built with K-cycle workspace and has at least one row. |
| Cycling.CoarsestSolves | amgcl/level_cpu.hpp:189-196 | At the last level both cycles compute `Ai rhs`, whatever the initial `x` (the K-cycle repeats this at lines 261-268). |
| Cycling.NoRepetitions | amgcl/level_cpu.hpp:144 | With `ncycle == 0` the V-cycle leaves `x` unchanged. |
| Cycling.KCycle | amgcl/level_cpu.hpp:199-269 | `x` becomes `KCycleF` of `rhs` and the old `x`: `r` starts as `rhs`, followed by exactly two conjugate-gradient steps, or the direct solve at the last level. |
| Cycling.KCycleStep | amgcl/level_cpu.hpp:217-259 | One step zeroes `s`, runs the V-cycle on the same level with `r` as right-hand side, and then makes the update of `KUpdateF`. |
| Cycling.KUpdate | amgcl/level_cpu.hpp:220-259 | `rho1 = <r, s>`. `p = s` in step 0, otherwise `p = s + (rho1 / rho2) p`. Then `q = A p`, `alpha = rho1 / <q, p>`, `x += alpha p` and `r -= alpha q`. A zero divisor gives 0 (see Findings). |
| Cycling.StepFixesSolution | amgcl/level_cpu.hpp:144-187 | If `x` solves `A x = rhs` and the next level corrects zero by zero, one repetition leaves `x` unchanged. |
| Cycling.RepFixesSolution | amgcl/level_cpu.hpp:144-188 | Under the same assumptions, `ncycle` repetitions leave `x` unchanged. |
| Cycling.ZeroKIters | amgcl/level_cpu.hpp:212-259 | From a zero right-hand side and guess, every step of the corrected K-cycle stays at the zero state. |
| Cycling.ZeroInZeroOut | amgcl/level_cpu.hpp:134-269 | At every level, the V-cycle, the corrected K-cycle and the coarse correction map a zero right-hand side with a zero guess to zero. The source has this property only when no level at or below idx uses the K-cycle; otherwise it computes 0 / 0 (see Findings). |
| Cycling.CycleFixesSolution | amgcl/level_cpu.hpp:134-197 | The V-cycle above the coarsest level leaves an exact solution of `A x = rhs` unchanged, given the corrected K-cycle. The source has this property only when no level below idx uses the K-cycle; otherwise the zero restricted residual reaches a K-cycle and becomes NaN (see Findings). |
| Cycling.KItersTrackResidual | amgcl/level_cpu.hpp:212-259 | Started from a zero guess, after every conjugate-gradient step the K-cycle's `r` equals `rhs - A x` at its current `x`, for every right-hand side. Starting `r` at `rhs` (line 212) is correct only because the caller zeroes `u` first (line 169). |
| Sparse.ResidualAtZeros | amgcl/level_cpu.hpp:212 | The residual of the zero guess is the right-hand side itself. |
| Sparse.RowSumAddScaled | amgcl/level_cpu.hpp:236-243 | A row sum is linear in the vector it multiplies. |
| Sparse.ResidualAddScaled | amgcl/level_cpu.hpp:247-259 | Moving `x` by `alpha p` moves the residual by `-alpha A p`, which is the update `r -= alpha q` with `q = A p`. |
| Cycling.AsWrittenFirstStep | amgcl/level_cpu.hpp:220-259 | The first K-cycle step as written has an unguarded `alpha = rho1 / <A p, p>`. Wherever that divisor is non-zero, it agrees with the corrected `KUpdateF`. |
| Cycling.FirstStepDividesZeroByZero | amgcl/level_cpu.hpp:212-245 | On a zero right-hand side, the first K-cycle step has `rho1 == 0` and `<A p, p> == 0`, so the source computes `alpha` as 0 / 0. |

## Left out

- OpenMP parallel loops are modelled as sequential row loops. Rows are written independently, so the results are the same.
- Floating-point rounding, infinities and NaN are not modelled: values are exact reals. The damping constant 0.72 is the exact rational 0.72.
- The square root in `resid` is left out. `LevelCpu.Level.Resid` returns the squared norm, and the caller takes the root.
- `sparse::matrix`, `sparse::matrix_nonzeros` and the level parameters come from `amgcl/spmat.hpp` and `amgcl/level_params.hpp`, which are not part of this model. The matrix is a minimal CSR datatype and the parameters are a record of `ncycle`, `npre`, `npost` and `kcycle`.
- LevelCpu.Level.Nonzeros: assumes that `matrix_nonzeros` reads the last row pointer, `row[rows]`, because that function's source is not part of this model.
- The template parameters are fixed. The level's vectors are `Vec` objects. `relax` is modelled for both `vector_copy` overloads (`Relax` and `RelaxCopy`). The cycles are modelled only for a solution vector of the level's own vector type, not for a foreign vector type.
- The iterator range `[lvl, end)` is a sequence of levels plus a position.
- Building the hierarchy and the outer solver loop that calls the cycles live outside this file and are not modelled.
- Sweep, Relax, RelaxCopy and the cycles: these require every diagonal found by the sweep to be non-zero. The source divides by it unguarded.
- Cycling.KUpdate, Cycling.KCycle, Cycling.KCycleStep: these model the corrected K-cycle, in which a zero divisor `rho2` or `<q, p>` gives a zero coefficient. The source's unguarded division is modelled only for the first step (`Cycling.AsWrittenFirstStep`).
- Cycling.Cycle: requires `x` to be distinct from the level's own `t` and from every vector of every coarser level. The source calls it with the user's vector, with the next level's `u`, and from the K-cycle with the level's own `cg[1]` (line 218).
- Cycling.KCycle: requires `x` to be distinct from the level's own `t` and `cg[0..3]` and from every vector of every coarser level. The source calls it only with the level's own `u` (line 174).

## Findings

| source | as written | input that shows it | evidently intended | confidence | as-written member | corrected member |
|---|---|---|---|---|---|---|
| amgcl/level_cpu.hpp:220-245 | The K-cycle computes `beta = rho1 / rho2` and `alpha = rho1 / inner_prod(q, p)` with no guard. | A hierarchy of three or more levels with a K-cycle level below the finest, for example `kcycle = 1` with level 1 not the coarsest, called with a zero right-hand side and a zero guess at the finest level. The same happens whenever `x` already solves the finest level exactly. The K-cycle level then receives `f = 0`, and its first step has `rho1 = <r, s> = 0` and `<q, p> = <A s, s> = 0`, so `alpha = 0 / 0` is NaN and spreads into `u` and then `x`. | A zero right-hand side should give a zero correction, and an exact solution should stay unchanged. This holds when a zero divisor gives a zero coefficient. | medium (not executed) | Cycling.FirstStepDividesZeroByZero | Cycling.ZeroInZeroOut |
