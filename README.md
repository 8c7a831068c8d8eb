# Matrix engine of the transformation viewer, in Dafny

This project models the linear-algebra core of `js.js`. That core is two pieces:

- the `Matrix` class (js.js:12-152), with its constructor, `dot`, `matmul` and `inverse`;
- the composition loop in `renderCanvas` (js.js:285-297). The loop starts from a view-scale matrix, right-multiplies it by each transformation's matrix in list order, and then inverts the composite.

Numbers are exact `real`s. A grid is `seq<seq<real>>`, stored row-major.

Files:

- `options.dfy`: `Option`, which stands for the source's `null` results.
- `algebra.dfy`, module `Algebra`: the specification functions.
  - `Sum` adds left to right, as the source's `+=` loops do.
  - `Inner` is the inner product; `MatVec` and `MatMul` are the matrix-vector and matrix-matrix products; `Identity` is the identity.
  - Lemmas about them: identity laws, and the associativity of both products.
- `rowops.dfy`, module `RowOps`: the three row operations of Gauss-Jordan elimination. It also holds the invariant that proves `inverse` correct. With `M` the source matrix, `L` the working copy and `R` the working identity, there is a ghost matrix `P` that undoes every row operation as a column operation, and the loop keeps
  - `R·M = L`,
  - `P·L = M`,
  - `P·R = I`.

  When `L` reaches `I`, these give `P = M`, so `R` is a two-sided inverse. When a pivot column is zero on and below the diagonal, `L` has a non-zero kernel vector. `P·L = M` carries it over to `M`, so `M` has no left inverse.
- `matrix.dfy`, module `Matrices`: the `Matrix` datatype and its operations.
  - `Dot`, `Matmul` and `Inverse` are methods with the source's loops. `Inverse` checks squareness and then runs `GaussJordan` on the grid. `Dot` accumulates into an `array<real>`; `Matmul` and `GaussJordan` work on arrays of rows.
  - Each part of `inverse`'s work is a helper method, proved against the function it performs:
    - `WorkingCopies` against `Identity`;
    - `FindPivotBelow` against `FirstPivotBelow`;
    - `SwapPivotIn` against `SwapRows` at the row `FirstPivotBelow` names;
    - `DivideRowInPlace` against `DivideRow`;
    - `EliminateRow` and `SubtractRowInPlace` against `SubtractRow`;
    - `EliminateColumn` against `ClearColumn`;
    - `ReduceColumn` against `ClearColumn` after `DivideRow`;
    - `EliminationStep` against `PassResult` at the pivot row `ChosenPivot` names.
  - The constructor is `Construct`.
- `composition.dfy`, module `Composition`: the fold `Compose`, its loop `ComposeLoop`, and `CanvasTransform`, which composes from the view scale and then inverts. Lemmas say what the composite means.

The source's `Matrix` never changes its grid after construction, so `Matrix` is a datatype. Its operations leave their operands untouched because they are values. So `matmul` leaves both operands unchanged, and `inverse` leaves its matrix unchanged.

The model follows the code in these details:

- A grid may be any rectangle. `dot` and `matmul` accept non-square grids, and `inverse` returns None for them (js.js:77-80).
- `dot` returns `|v|` entries and reads only the first `|v|` rows (js.js:35-42).
- Building from the number 0 gives the empty grid (js.js:26).
- The composition starts from the fixed view scale `s = 10` (js.js:287-290).

## Model

| member | source | states |
|---|---|---|
| `Matrices.Construct` | js.js:13-27 | An array argument is wrapped as it is. A Matrix argument shares its grid. A number `n` gives an n×n grid, non-empty and rectangular when `n > 0`. No recognised argument leaves a 3×3 grid. |
| `Matrices.NumberGivesIdentity` | js.js:25-26 | The matrix built from `n` has 1 on the diagonal and 0 elsewhere. What its `dot(v)` returns is `v` for every `v` of length `n`. |
| `Matrices.NumberGivesLeftNeutral` | js.js:25-26 | The matrix built from `n > 0` is a left identity for every non-empty, rectangular n-row grid. |
| `Matrices.NumberGivesRightNeutral` | js.js:25-26 | The matrix built from `n` is a right identity for every rectangular grid of any height with n columns. |
| `Matrices.UnrecognisedGivesIdentity` | js.js:13 | The default grid the field starts with equals the matrix built from the number 3. |
| `Matrices.Matrix.Dot` | js.js:29-45 | The result has `|v|` entries. Entry `row` is `Σ_col v[col]·M[row][col]`, taken over the first `|v|` rows. The caller must pass a vector as long as the matrix is wide. |
| `Matrices.Matrix.Matmul` | js.js:47-71 | The result is None exactly when this matrix's width differs from `right`'s height. Otherwise it is the product grid: `height × width`, with entry `Σ_i l[row][i]·r[i][col]`. |
| `Matrices.AccumulateEntry` | js.js:65-66 | The innermost `matmul` loop. Entry (row, col) of the buffer becomes the inner product of `l[row]` with column `col` of `r`; nothing else in the buffer changes. |
| `Matrices.Product` | js.js:47-71 | The value of `matmul` as a function. When defined, it is non-empty and rectangular, as tall as the left operand and as wide as the right one. |
| `Matrices.Matrix.Inverse` | js.js:73-151 | A non-square grid gives None. A result `R` satisfies `R·M = I` and `M·R = I`. A square grid that gives None has no left inverse at all. |
| `Matrices.GaussJordan` | js.js:84-150 | On a non-empty square grid, a result is a two-sided inverse of it. None means no n×n grid is a left inverse of it. |
| `Matrices.WorkingCopies` | js.js:85-86 | `l` is a fresh copy of the grid and `r` a fresh identity of the same size, in two distinct arrays. |
| `Matrices.EliminationStep` | js.js:91-147 | One pass of the outer loop keeps the invariant (`R·M = L`, `P·L = M`, `P·R = I`). When it pivots, the pivot row `k` is `ChosenPivot`: the row itself if its diagonal entry is non-zero, else the first non-zero row below. Both grids are then `PassResult` of the old ones: swap rows `row` and `k`, divide by the pivot, clear the column. One more column is reduced. It reports no pivot only when the column is `StuckColumn`, zero on and below the diagonal. Then both grids are unchanged and the source grid is singular, which justifies the `null`. |
| `Matrices.SwapPivotIn` | js.js:100-117 | Let `k` be the first row below the pivot whose entry in the pivot column is non-zero. If there is such a `k`, it is returned and both grids become `SwapRows(old, row, k)`. If there is none, a value past the last row is returned, nothing changes, and the column is zero from the pivot row down. The invariant holds either way. |
| `Matrices.FindPivotBelow` | js.js:101-116 | The `below` loop's stopping point. It returns the first row below `row` whose entry in column `row` is non-zero, or the grid size when column `row` is zero below the diagonal. |
| `Matrices.ReduceColumn` | js.js:126-146 | With a non-zero pivot `e` in place, both grids become `ClearColumn` of `DivideRow(old, row, e)`. The invariant holds and one more column is reduced. |
| `Matrices.DivideRowInPlace` | js.js:127-130 | Both working grids become `DivideRow(old, row, e)`. |
| `Matrices.SubtractRowInPlace` | js.js:141-144 | Both working grids become `SubtractRow(old, target, pivot, v)`. |
| `Matrices.EliminateRow` | js.js:136-144 | Both grids become `SubtractRow(old, target, pivot, v)`, where `v` is the target row's old entry in the pivot column. The invariant holds, that entry becomes zero, and the pivot and earlier columns are kept. |
| `Matrices.EliminateColumn` | js.js:134-146 | Both grids become `ClearColumn` of the old grids. Every other row `k` loses `old l[k][row]` times the pivot row. The pivot column becomes an identity column, and the invariant still holds. |
| `RowOps.ConsistentStart` | js.js:85-86 | The invariant holds before the first pivot, with `L = M`, `R = I` and `P = I`. |
| `RowOps.SwapKeepsConsistent` | js.js:106-112 | A row swap on `L` and `R`, matched by a column swap on `P`, keeps the invariant. |
| `RowOps.DivideKeepsConsistent` | js.js:127-130 | Dividing a row of `L` and `R` by `e ≠ 0`, matched by multiplying a column of `P` by `e`, keeps the invariant. |
| `RowOps.SubtractKeepsConsistent` | js.js:141-144 | Subtracting `v` times the pivot row, matched by adding `v` times a column of `P`, keeps the invariant. |
| `RowOps.SwapStep` | js.js:106-112 | Swapping the pivot row with a lower row keeps the invariant, for a matching `P`, and keeps the columns already reduced. |
| `RowOps.DivideKeepsReduced` | js.js:127-130 | Dividing the pivot row by its own pivot makes the pivot 1 and keeps the columns already reduced. |
| `RowOps.SubtractKeepsReduced` | js.js:139-144 | Subtracting `l[row_2][col]` times the pivot row zeroes that entry and keeps the columns already reduced. |
| `RowOps.ClearColumnStep` | js.js:134-144 | Clearing the pivot column in one more row is a `SubtractRow` by that row's original entry, because the earlier rows' clearing left it unchanged. The pivot row itself is skipped. |
| `RowOps.ClearColumnAdvance` | js.js:134-146 | After one pass of the `row_2` loop, both working grids are `ClearColumn` up to one more row. |
| `RowOps.ClearingStart` | js.js:134 | Before the `row_2` loop, the loop state holds with nothing cleared yet and the working grids as they are. |
| `RowOps.SubtractStep` | js.js:139-144 | One subtraction advances the whole loop state by one row: the invariant, the cleared rows, and the `ClearColumn` description of both grids. |
| `RowOps.SkipStep` | js.js:136-137 | Skipping the pivot row advances the loop state by one row without changing either grid. |
| `RowOps.ConsistentDone` | js.js:149-150 | Once `L` is the identity, `R` is a two-sided inverse of `M`. |
| `RowOps.FirstPivotExists` | js.js:101-116 | A non-zero entry below the diagonal in column `row` means the `below` loop stops at a first such row. |
| `RowOps.StuckColumnNoPivot` | js.js:100-123 | A column is `StuckColumn` exactly when no pivot row is `ChosenPivot`, so `inverse` returns `null` exactly when the column is zero on and below the diagonal. |
| `RowOps.StuckColumnKernel` | js.js:118-123 | A pivot column that is zero on and below the diagonal, after the earlier columns are reduced, yields a vector `y` with `y[row] = 1` and `L·y = 0`. |
| `RowOps.StuckPivotSingular` | js.js:118-123 | In that state no n×n grid `X` has `X·M = I`, so returning None is right. |
| `Algebra.IdentityMatVec` | js.js:26 | The identity times any vector of its length is that vector. |
| `Algebra.MatVecAssoc` | js.js:29-71 | `(A·B)·x = A·(B·x)`. |
| `Algebra.MatMulAssoc` | js.js:47-71 | `(A·B)·C = A·(B·C)`. |
| `Composition.Compose` | js.js:288-295 | An empty list yields the lead itself. The fold is defined exactly when each matrix is as tall as its predecessor is wide. The result then has the lead's height and the last matrix's width. |
| `Composition.ComposeLoop` | js.js:290-295 | The loop that reassigns `matrix` computes `Compose(lead, ts)`. |
| `Composition.ApplyComposite` | js.js:288-295 | The composite maps a point as the matrices do one after another: the last of the list first, the lead last. |
| `Composition.ComposeFactors` | js.js:288-295 | The composite is `lead × (T0 × T1 × …)`, the lead times the product of the list computed on its own. |
| `Composition.ComposeAppend` | js.js:292-295 | Folding over `ts + us` is folding over `ts`, then over `us` from that composite. |
| `Composition.ScaleMatrix` | js.js:288 | The view-scale literal is a valid 3×3 grid with `s, s, 1` on the diagonal. |
| `Composition.ScaleMaps` | js.js:287-288 | The view-scale matrix maps `[x, y, 1]` to `[s·x, s·y, 1]`. |
| `Composition.CanvasTransform` | js.js:285-297 | The composite is `Compose(scale(10), ts)`. Any inverse returned is a two-sided inverse of a 3×3 composite. A 3×3 composite with no inverse returned has no left inverse. |

## Left out

- DOM and canvas code is not modelled: `init`, `render`, `renderEditors`, the drawing half of `renderCanvas` (js.js:299-324), the HTML building of `Transformation.render`/`renderMatrix`, and `changeTransformationParameter`. It is I/O and presentation with no algebra in it.
- `Rotation.compileMatrix` is not modelled: it computes `Math.sin`/`Math.cos` in floating point. The composition takes each transformation's matrix as an input.
- `processEdit` is not modelled: it relies on JavaScript's string-to-number coercion.
- Floating-point rounding is not modelled: numbers are exact reals, so `inverse`'s `== 0` pivot tests are exact.
- The `console.log` diagnostics are not modelled.
- Grids whose rows differ in length are excluded by `Valid`. In the source, a row shorter than the first yields `undefined` entries and so `NaN`. Entries past the first row's length in a longer row are never read: the loop bounds of `dot` and `matmul` (js.js:38-39, 51-52, 65) stop before them, and `inverse`'s copy (js.js:85) drops them. `new Matrix([[1,0],[0,1,5]]).inverse()`, for one, gives the identity. The model does not capture these results.
- The empty grid (`new Matrix(0)`, `new Matrix([])`) can be constructed, but `Valid` excludes it from `dot`, `matmul` and `inverse`. In the source each of them throws a `TypeError` at `[0].length` (js.js:31, 52, 56, 77); that error path is not modelled.
- `Matrices.Construct` takes the number as a `nat`. In the source a negative or fractional number makes `Array(n)` throw a `RangeError`.
- `Matrices.Matrix.Dot` requires `|v|` to equal the matrix width and not to exceed its height. The source only logs the width mismatch and computes on. A shorter vector then gives a partial product; a longer one gives `NaN` or a `TypeError`. When `|v|` equals the width but exceeds the height, `this._matrix[row]` is `undefined` at js.js:40 and the source throws a `TypeError`.
- `Composition.Compose` yields None from the first failed product on, and `CanvasTransform` then returns `(None, None)`. In the source, a failed product inside the list makes the next `null.matmul` throw a `TypeError`. A failed last product makes `matrix.inverse()` at js.js:297 throw one. A failed `inverse` makes the following `dot` calls throw.
- The source's rows are separate arrays that `inverse` swaps by reference. The model holds rows as values in an array of rows, and swaps two cells of that array. No row of `l` is shared with `r` or with the source grid, because both are built fresh, so the aliasing is not observable.
- The FromMatrix case shares the source's `_matrix` array. Because the model's grids are values, later writes through one `Matrix` showing up in the other are not modelled; no operation in the core writes to `_matrix`.
