/**
 * The three elementary row operations of Gauss-Jordan elimination,
 * and why applying them to the working pair (L, R) keeps
 *   R · M == L,   P · L == M,   P · R == I
 * for a ghost matrix P that undoes them column by column.
 */
module RowOps {
  import opened Algebra

  /** Exchange rows `i` and `j`. */
  function SwapRows(g: Grid, i: nat, j: nat): (s: Grid)
    requires i < |g| && j < |g|
    ensures |s| == |g| && s[i] == g[j] && s[j] == g[i]
    ensures forall k :: 0 <= k < |g| && k != i && k != j ==> s[k] == g[k]
  {
    g[i := g[j]][j := g[i]]
  }

  /** Divide every entry of row `i` by `e`. */
  function DivideRow(g: Grid, i: nat, e: real): Grid
    requires i < |g| && e != 0.0
  {
    g[i := DivideBy(g[i], e)]
  }

  /** Subtract `v` times row `pivot` from row `target`. */
  function SubtractRow(g: Grid, target: nat, pivot: nat, v: real): Grid
    requires target < |g| && pivot < |g| && |g[target]| == |g[pivot]|
  {
    g[target := SubtractMultiple(g[target], v, g[pivot])]
  }

  /** Row `k` is the first row below `row` with a non-zero entry in column `row`. */
  predicate FirstPivotBelow(g: Grid, n: nat, row: nat, k: nat)
    requires IsMatrix(g, n, n)
  {
    && row < k < n
    && g[k][row] != 0.0
    && forall j :: row < j < k ==> g[j][row] == 0.0
  }

  /** At most one row is the first pivot row below `row`. */
  lemma FirstPivotUnique(g: Grid, n: nat, row: nat, k: nat)
    requires IsMatrix(g, n, n) && FirstPivotBelow(g, n, row, k)
    ensures forall j: nat :: FirstPivotBelow(g, n, row, j) ==> j == k
  {
  }

  /** A non-zero entry below the diagonal means there is a first one. */
  lemma {:induction false} FirstPivotExists(g: Grid, n: nat, row: nat, j: nat)
    requires IsMatrix(g, n, n) && row < j < n && g[j][row] != 0.0
    ensures exists k :: FirstPivotBelow(g, n, row, k)
    decreases j
  {
    if forall i :: row < i < j ==> g[i][row] == 0.0 {
      assert FirstPivotBelow(g, n, row, j);
    } else {
      var i :| row < i < j && g[i][row] != 0.0;
      FirstPivotExists(g, n, row, i);
    }
  }

  /** `inverse` finds no pivot for column `row` exactly when the column is stuck. */
  lemma StuckColumnNoPivot(g: Grid, n: nat, row: nat)
    requires IsMatrix(g, n, n) && row < n
    ensures StuckColumn(g, n, row) <==> forall k :: !ChosenPivot(g, n, row, k)
  {
    if !StuckColumn(g, n, row) {
      var j :| row <= j < n && g[j][row] != 0.0;
      if g[row][row] != 0.0 {
        assert ChosenPivot(g, n, row, row);
      } else {
        FirstPivotExists(g, n, row, j);
        var k :| FirstPivotBelow(g, n, row, k);
        assert ChosenPivot(g, n, row, k);
      }
    }
  }

  /**
   * Column `pivot` of `l` cleared by row `pivot` in the rows before `upto`,
   * as done to `g`: every such row `k` but the pivot row loses
   * `l[k][pivot]` times row `pivot` of `g`.
   */
  function ClearColumn(l: Grid, g: Grid, n: nat, pivot: nat, upto: nat): (h: Grid)
    requires IsMatrix(l, n, n) && IsMatrix(g, n, n) && pivot < n
  {
    seq(n, k requires 0 <= k < n =>
      if k < upto && k != pivot then SubtractMultiple(g[k], l[k][pivot], g[pivot]) else g[k])
  }

  /** Column `row` is zero on and below the diagonal: `inverse` finds no pivot there. */
  predicate StuckColumn(g: Grid, n: nat, row: nat)
    requires IsMatrix(g, n, n) && row < n
  {
    forall k :: row <= k < n ==> g[k][row] == 0.0
  }

  /**
   * The pivot row one pass of `inverse` uses for column `row`: `row` itself
   * when its diagonal entry is non-zero, else the first row below with a
   * non-zero entry in the column.
   */
  predicate ChosenPivot(g: Grid, n: nat, row: nat, k: nat)
    requires IsMatrix(g, n, n) && row < n
  {
    if g[row][row] != 0.0 then k == row else FirstPivotBelow(g, n, row, k)
  }

  /** Swapping and dividing rows of an n-by-n grid leaves it n by n. */
  lemma PassShape(g: Grid, n: nat, row: nat, k: nat, e: real)
    requires IsMatrix(g, n, n) && row < n && k < n && e != 0.0
    ensures IsMatrix(DivideRow(SwapRows(g, row, k), row, e), n, n)
  {
  }

  /**
   * `l` and `r` are what one pass of `inverse` makes of `l0` and `r0` with
   * pivot row `k`: swap rows `row` and `k`, divide row `row` by the pivot
   * `l0[k][row]`, then clear column `row` in every other row.
   */
  predicate PassResult(l0: Grid, r0: Grid, l: Grid, r: Grid, n: nat, row: nat, k: nat)
    requires IsMatrix(l0, n, n) && IsMatrix(r0, n, n) && row < n && k < n && l0[k][row] != 0.0
  {
    var e := l0[k][row];
    var ld, rd := DivideRow(SwapRows(l0, row, k), row, e), DivideRow(SwapRows(r0, row, k), row, e);
    PassShape(l0, n, row, k, e);
    PassShape(r0, n, row, k, e);
    l == ClearColumn(ld, ld, n, row, n) && r == ClearColumn(ld, rd, n, row, n)
  }

  ghost function SwapEntries(s: Vector, i: nat, j: nat): Vector
    requires i < |s| && j < |s|
  {
    s[i := s[j]][j := s[i]]
  }

  ghost function MultiplyEntry(s: Vector, i: nat, e: real): Vector
    requires i < |s|
  {
    s[i := s[i] * e]
  }

  ghost function AddToEntry(s: Vector, i: nat, j: nat, v: real): Vector
    requires i < |s| && j < |s|
  {
    s[i := s[i] + v * s[j]]
  }

  ghost function DivideEntry(s: Vector, i: nat, e: real): Vector
    requires i < |s| && e != 0.0
  {
    s[i := s[i] / e]
  }

  ghost function SubtractFromEntry(s: Vector, j: nat, i: nat, v: real): Vector
    requires i < |s| && j < |s|
  {
    s[j := s[j] - v * s[i]]
  }

  /** Exchange columns `i` and `j`: undoes `SwapRows` from the left. */
  ghost function SwapCols(g: Grid, i: nat, j: nat): Grid
    requires forall a :: 0 <= a < |g| ==> i < |g[a]| && j < |g[a]|
  {
    seq(|g|, a requires 0 <= a < |g| => SwapEntries(g[a], i, j))
  }

  /** Multiply column `i` by `e`: undoes `DivideRow`. */
  ghost function MultiplyCol(g: Grid, i: nat, e: real): Grid
    requires forall a :: 0 <= a < |g| ==> i < |g[a]|
  {
    seq(|g|, a requires 0 <= a < |g| => MultiplyEntry(g[a], i, e))
  }

  /** Add `v` times column `j` to column `i`: undoes `SubtractRow(_, j, i, v)`. */
  ghost function AddColMultiple(g: Grid, i: nat, j: nat, v: real): Grid
    requires forall a :: 0 <= a < |g| ==> i < |g[a]| && j < |g[a]|
  {
    seq(|g|, a requires 0 <= a < |g| => AddToEntry(g[a], i, j, v))
  }

  /**
   * The working state of the elimination of `m`: `l` starts as `m` and `r` as the
   * identity; `r` records the row operations done to `l`, and `p` undoes them.
   */
  ghost predicate Consistent(m: Grid, l: Grid, r: Grid, p: Grid, n: nat)
  {
    && n > 0
    && IsMatrix(m, n, n) && IsMatrix(l, n, n) && IsMatrix(r, n, n) && IsMatrix(p, n, n)
    && MatMul(r, m) == l
    && MatMul(p, l) == m
    && MatMul(p, r) == Identity(n)
  }

  /** The first `c` columns of `g` are those of the identity. */
  predicate ReducedColumns(g: Grid, n: nat, c: nat)
    requires IsMatrix(g, n, n) && c <= n
  {
    forall k, col :: 0 <= k < n && 0 <= col < c ==> g[k][col] == if k == col then 1.0 else 0.0
  }

  /**
   * Column `c` of `g` while it is being cleared: the columns before it are
   * reduced, it holds the pivot 1 in row `c` and zeros in the other rows
   * before `upto`.
   */
  predicate ClearedUpTo(g: Grid, n: nat, c: nat, upto: nat)
    requires IsMatrix(g, n, n) && c < n
  {
    && ReducedColumns(g, n, c) && g[c][c] == 1.0
    && forall k :: 0 <= k < upto && k < n && k != c ==> g[k][c] == 0.0
  }

  // ---------------------------------------------------------------------
  // One entry of a product under a row operation and its column inverse

  lemma InnerSwapCancel(p: Vector, x: Vector, i: nat, j: nat)
    requires |p| == |x| && i < |p| && j < |p| && i != j
    ensures Inner(p[i := p[j]][j := p[i]], x[i := x[j]][j := x[i]]) == Inner(p, x)
  {
    SumPair(Products(p[i := p[j]][j := p[i]], x[i := x[j]][j := x[i]]), Products(p, x), i, j);
  }

  lemma InnerScaleCancel(p: Vector, x: Vector, i: nat, e: real)
    requires |p| == |x| && i < |p| && e != 0.0
    ensures Inner(MultiplyEntry(p, i, e), DivideEntry(x, i, e)) == Inner(p, x)
  {
    var q, q' := Products(p, x), Products(MultiplyEntry(p, i, e), DivideEntry(x, i, e));
    assert q'[i] == (p[i] * e) * (x[i] / e) == p[i] * x[i];
    forall k | 0 <= k < |p|
      ensures q'[k] == q[k]
    {
    }
    assert q' == q;
  }

  lemma InnerAddCancel(p: Vector, x: Vector, i: nat, j: nat, v: real)
    requires |p| == |x| && i < |p| && j < |p| && i != j
    ensures Inner(AddToEntry(p, i, j, v), SubtractFromEntry(x, j, i, v)) == Inner(p, x)
  {
    var p', x' := AddToEntry(p, i, j, v), SubtractFromEntry(x, j, i, v);
    assert (p[i] + v * p[j]) * x[i] + p[j] * (x[j] - v * x[i]) == p[i] * x[i] + p[j] * x[j];
    SumPair(Products(p', x'), Products(p, x), i, j);
  }

  // ---------------------------------------------------------------------
  // A row operation on the left factor is that row operation on the product

  lemma SwapLeft(r: Grid, m: Grid, n: nat, i: nat, j: nat)
    requires IsMatrix(r, n, n) && IsMatrix(m, n, n) && n > 0 && i < n && j < n
    ensures MatMul(SwapRows(r, i, j), m) == SwapRows(MatMul(r, m), i, j)
  {
  }

  lemma DivideLeft(r: Grid, m: Grid, n: nat, i: nat, e: real)
    requires IsMatrix(r, n, n) && IsMatrix(m, n, n) && n > 0 && i < n && e != 0.0
    ensures MatMul(DivideRow(r, i, e), m) == DivideRow(MatMul(r, m), i, e)
  {
    forall j | 0 <= j < n
      ensures VecMat(DivideBy(r[i], e), m, n)[j] == DivideBy(VecMat(r[i], m, n), e)[j]
    {
      var c := Column(m, j);
      forall k | 0 <= k < n
        ensures Products(DivideBy(r[i], e), c)[k] == DivideBy(Products(r[i], c), e)[k]
      {
      }
      assert Products(DivideBy(r[i], e), c) == DivideBy(Products(r[i], c), e);
      SumDivideBy(Products(r[i], c), e);
    }
    assert VecMat(DivideBy(r[i], e), m, n) == DivideBy(VecMat(r[i], m, n), e);
  }

  lemma SubtractLeft(r: Grid, m: Grid, n: nat, target: nat, pivot: nat, v: real)
    requires IsMatrix(r, n, n) && IsMatrix(m, n, n) && n > 0 && target < n && pivot < n
    ensures MatMul(SubtractRow(r, target, pivot, v), m)
         == SubtractRow(MatMul(r, m), target, pivot, v)
  {
    var x, y := r[target], r[pivot];
    forall j | 0 <= j < n
      ensures VecMat(SubtractMultiple(x, v, y), m, n)[j]
           == SubtractMultiple(VecMat(x, m, n), v, VecMat(y, m, n))[j]
    {
      InnerSubtractMultiple(x, v, y, Column(m, j));
    }
    assert VecMat(SubtractMultiple(x, v, y), m, n)
        == SubtractMultiple(VecMat(x, m, n), v, VecMat(y, m, n));
  }

  lemma {:induction false} InnerSubtractMultiple(x: Vector, v: real, y: Vector, c: Vector)
    requires |x| == |y| == |c|
    ensures Inner(SubtractMultiple(x, v, y), c) == Inner(x, c) - v * Inner(y, c)
  {
    ProductsSubtractMultiple(x, v, y, c);
    SumSubtractMultiple(Products(x, c), v, Products(y, c));
  }

  lemma ProductsSubtractMultiple(x: Vector, v: real, y: Vector, c: Vector)
    requires |x| == |y| == |c|
    ensures Products(SubtractMultiple(x, v, y), c) == SubtractMultiple(Products(x, c), v, Products(y, c))
  {
    forall k | 0 <= k < |c|
      ensures Products(SubtractMultiple(x, v, y), c)[k] == SubtractMultiple(Products(x, c), v, Products(y, c))[k]
    {
      assert (x[k] - v * y[k]) * c[k] == x[k] * c[k] - v * (y[k] * c[k]);
    }
  }

  // ---------------------------------------------------------------------
  // A column operation on P cancels the row operation on its right factor

  lemma SwapCancel(p: Grid, x: Grid, n: nat, i: nat, j: nat)
    requires IsMatrix(p, n, n) && IsMatrix(x, n, n) && n > 0 && i < n && j < n && i != j
    ensures MatMul(SwapCols(p, i, j), SwapRows(x, i, j)) == MatMul(p, x)
  {
    var p', x' := SwapCols(p, i, j), SwapRows(x, i, j);
    forall a, b | 0 <= a < n && 0 <= b < n
      ensures MatMul(p', x')[a][b] == MatMul(p, x)[a][b]
    {
      assert Column(x', b) == Column(x, b)[i := x[j][b]][j := x[i][b]];
      InnerSwapCancel(p[a], Column(x, b), i, j);
    }
    forall a | 0 <= a < n
      ensures MatMul(p', x')[a] == MatMul(p, x)[a]
    {
    }
  }

  lemma DivideCancel(p: Grid, x: Grid, n: nat, i: nat, e: real)
    requires IsMatrix(p, n, n) && IsMatrix(x, n, n) && n > 0 && i < n && e != 0.0
    ensures MatMul(MultiplyCol(p, i, e), DivideRow(x, i, e)) == MatMul(p, x)
  {
    var p', x' := MultiplyCol(p, i, e), DivideRow(x, i, e);
    forall a, b | 0 <= a < n && 0 <= b < n
      ensures MatMul(p', x')[a][b] == MatMul(p, x)[a][b]
    {
      var c := Column(x, b);
      forall k | 0 <= k < n
        ensures Column(x', b)[k] == DivideEntry(c, i, e)[k]
      {
      }
      assert Column(x', b) == DivideEntry(c, i, e);
      InnerScaleCancel(p[a], c, i, e);
      assert MatMul(p', x')[a][b] == Inner(p'[a], Column(x', b));
    }
    forall a | 0 <= a < n
      ensures MatMul(p', x')[a] == MatMul(p, x)[a]
    {
    }
  }

  lemma SubtractCancel(p: Grid, x: Grid, n: nat, target: nat, pivot: nat, v: real)
    requires IsMatrix(p, n, n) && IsMatrix(x, n, n) && n > 0
    requires target < n && pivot < n && target != pivot
    ensures MatMul(AddColMultiple(p, pivot, target, v), SubtractRow(x, target, pivot, v))
         == MatMul(p, x)
  {
    var p', x' := AddColMultiple(p, pivot, target, v), SubtractRow(x, target, pivot, v);
    forall a, b | 0 <= a < n && 0 <= b < n
      ensures MatMul(p', x')[a][b] == MatMul(p, x)[a][b]
    {
      var c := Column(x, b);
      forall k | 0 <= k < n
        ensures Column(x', b)[k] == SubtractFromEntry(c, target, pivot, v)[k]
      {
      }
      assert Column(x', b) == SubtractFromEntry(c, target, pivot, v);
      InnerAddCancel(p[a], c, pivot, target, v);
      assert MatMul(p', x')[a][b] == Inner(p'[a], Column(x', b));
    }
    forall a | 0 <= a < n
      ensures MatMul(p', x')[a] == MatMul(p, x)[a]
    {
    }
  }

  // ---------------------------------------------------------------------
  // The elimination invariant

  /** The state before the first pivot: L is a copy of M, R and P the identity. */
  lemma ConsistentStart(m: Grid, n: nat)
    requires IsMatrix(m, n, n) && n > 0
    ensures Consistent(m, m, Identity(n), Identity(n), n)
  {
    IdentityLeft(m, n);
    IdentityLeft(Identity(n), n);
  }

  lemma SwapKeepsConsistent(m: Grid, l: Grid, r: Grid, p: Grid, n: nat, i: nat, j: nat)
    requires Consistent(m, l, r, p, n) && i < n && j < n && i != j
    ensures Consistent(m, SwapRows(l, i, j), SwapRows(r, i, j), SwapCols(p, i, j), n)
  {
    SwapLeft(r, m, n, i, j);
    SwapCancel(p, l, n, i, j);
    SwapCancel(p, r, n, i, j);
  }

  lemma DivideKeepsConsistent(m: Grid, l: Grid, r: Grid, p: Grid, n: nat, i: nat, e: real)
    requires Consistent(m, l, r, p, n) && i < n && e != 0.0
    ensures Consistent(m, DivideRow(l, i, e), DivideRow(r, i, e), MultiplyCol(p, i, e), n)
  {
    DivideLeft(r, m, n, i, e);
    DivideCancel(p, l, n, i, e);
    DivideCancel(p, r, n, i, e);
  }

  lemma SubtractKeepsConsistent(m: Grid, l: Grid, r: Grid, p: Grid, n: nat,
                                target: nat, pivot: nat, v: real)
    requires Consistent(m, l, r, p, n) && target < n && pivot < n && target != pivot
    ensures Consistent(m, SubtractRow(l, target, pivot, v), SubtractRow(r, target, pivot, v),
                       AddColMultiple(p, pivot, target, v), n)
  {
    SubtractLeft(r, m, n, target, pivot, v);
    SubtractCancel(p, l, n, target, pivot, v);
    SubtractCancel(p, r, n, target, pivot, v);
  }

  /** Swapping row `row` with a row below it keeps the first `row` columns reduced. */
  lemma SwapKeepsReduced(l: Grid, n: nat, row: nat, below: nat)
    requires IsMatrix(l, n, n) && row < below < n && ReducedColumns(l, n, row)
    ensures var l' := SwapRows(l, row, below);
            IsMatrix(l', n, n) && ReducedColumns(l', n, row)
  {
  }

  /** A row swap at `below`, on values: keeps the invariant and the reduced columns. */
  lemma SwapStep(m: Grid, l: Grid, r: Grid, p: Grid, n: nat, row: nat, below: nat) returns (p': Grid)
    requires Consistent(m, l, r, p, n) && row < below < n && ReducedColumns(l, n, row)
    ensures Consistent(m, SwapRows(l, row, below), SwapRows(r, row, below), p', n)
    ensures ReducedColumns(SwapRows(l, row, below), n, row)
  {
    SwapKeepsConsistent(m, l, r, p, n, row, below);
    SwapKeepsReduced(l, n, row, below);
    p' := SwapCols(p, row, below);
  }

  /** Dividing the pivot row by its pivot keeps the columns already reduced and makes the pivot 1. */
  lemma DivideKeepsReduced(l: Grid, n: nat, row: nat)
    requires IsMatrix(l, n, n) && row < n && ReducedColumns(l, n, row) && l[row][row] != 0.0
    ensures var l' := DivideRow(l, row, l[row][row]);
            IsMatrix(l', n, n) && ReducedColumns(l', n, row) && l'[row][row] == 1.0
  {
    var e := l[row][row];
    var l' := DivideRow(l, row, e);
    assert l'[row][row] == e / e == 1.0;
    forall k, c | 0 <= k < n && 0 <= c < row
      ensures l'[k][c] == if k == c then 1.0 else 0.0
    {
      if k == row {
        assert l[k][c] == 0.0;
        assert l'[k][c] == 0.0 / e == 0.0;
      }
    }
  }

  /** Once column `row` is cleared in every row, the first `row + 1` columns are reduced. */
  lemma ReducedNext(l: Grid, n: nat, row: nat)
    requires IsMatrix(l, n, n) && row < n && ClearedUpTo(l, n, row, n)
    ensures ReducedColumns(l, n, row + 1)
  {
  }

  /** Clearing column `pivot` of row `target` keeps the columns already reduced. */
  lemma SubtractKeepsReduced(l: Grid, n: nat, target: nat, pivot: nat)
    requires IsMatrix(l, n, n) && target < n && pivot < n && target != pivot
    requires ClearedUpTo(l, n, pivot, target)
    ensures var l' := SubtractRow(l, target, pivot, l[target][pivot]);
            IsMatrix(l', n, n) && ClearedUpTo(l', n, pivot, target + 1)
  {
  }

  /**
   * Clearing one more row of column `pivot` is one `SubtractRow` by that
   * row's entry in the column, an entry the earlier rows' clearing left as
   * it was; the pivot row itself is skipped.
   */
  lemma ClearColumnStep(l: Grid, g: Grid, n: nat, pivot: nat, t: nat)
    requires IsMatrix(l, n, n) && IsMatrix(g, n, n) && pivot < n && t < n
    ensures IsMatrix(ClearColumn(l, l, n, pivot, t), n, n) && IsMatrix(ClearColumn(l, g, n, pivot, t), n, n)
    ensures ClearColumn(l, l, n, pivot, t)[t][pivot] == l[t][pivot]
    ensures t == pivot ==> ClearColumn(l, g, n, pivot, t) == ClearColumn(l, g, n, pivot, t + 1)
    ensures t != pivot ==>
              SubtractRow(ClearColumn(l, g, n, pivot, t), t, pivot, l[t][pivot]) == ClearColumn(l, g, n, pivot, t + 1)
  {
    var h, h' := ClearColumn(l, g, n, pivot, t), ClearColumn(l, g, n, pivot, t + 1);
    if t == pivot {
      assert forall k | 0 <= k < n :: h[k] == h'[k];
    } else {
      var s := SubtractRow(h, t, pivot, l[t][pivot]);
      assert forall k | 0 <= k < n :: s[k] == h'[k];
    }
  }

  /** The working grids after one more pass of the clearing loop. */
  lemma ClearColumnAdvance(l0: Grid, r0: Grid, l: Grid, r: Grid, l': Grid, r': Grid, n: nat, pivot: nat, t: nat)
    requires IsMatrix(l0, n, n) && IsMatrix(r0, n, n) && pivot < n && t < n
    requires l == ClearColumn(l0, l0, n, pivot, t) && r == ClearColumn(l0, r0, n, pivot, t)
    requires t == pivot ==> l' == l && r' == r
    requires t != pivot ==>
               && |l[t]| == |l[pivot]| && |r[t]| == |r[pivot]|
               && l' == SubtractRow(l, t, pivot, l[t][pivot]) && r' == SubtractRow(r, t, pivot, l[t][pivot])
    ensures l' == ClearColumn(l0, l0, n, pivot, t + 1) && r' == ClearColumn(l0, r0, n, pivot, t + 1)
  {
    ClearColumnStep(l0, l0, n, pivot, t);
    ClearColumnStep(l0, r0, n, pivot, t);
  }

  /**
   * The state of the clearing loop for column `pivot` before row `t`: the
   * invariant holds, the rows before `t` are cleared, and `l` and `r` are the
   * grids `l0` and `r0` the loop started from, cleared up to row `t`.
   */
  ghost predicate Clearing(m: Grid, l0: Grid, r0: Grid, l: Grid, r: Grid, p: Grid, n: nat, pivot: nat, t: nat)
  {
    && pivot < n && IsMatrix(l0, n, n) && IsMatrix(r0, n, n)
    && Consistent(m, l, r, p, n) && ClearedUpTo(l, n, pivot, t)
    && l == ClearColumn(l0, l0, n, pivot, t) && r == ClearColumn(l0, r0, n, pivot, t)
  }

  /** The clearing loop starts from its own grids, with no row cleared yet. */
  lemma ClearingStart(m: Grid, l: Grid, r: Grid, p: Grid, n: nat, pivot: nat)
    requires pivot < n && Consistent(m, l, r, p, n) && ReducedColumns(l, n, pivot) && l[pivot][pivot] == 1.0
    ensures Clearing(m, l, r, l, r, p, n, pivot, 0)
  {
    assert forall k | 0 <= k < n :: ClearColumn(l, l, n, pivot, 0)[k] == l[k];
    assert forall k | 0 <= k < n :: ClearColumn(l, r, n, pivot, 0)[k] == r[k];
  }

  /**
   * One pass of the clearing loop on values: subtracting `v = l[target][pivot]`
   * times the pivot row keeps the invariant, clears one more row of the
   * column, and advances `ClearColumn` by one row.
   */
  lemma SubtractStep(m: Grid, l0: Grid, r0: Grid, l: Grid, r: Grid, p: Grid, n: nat, target: nat, pivot: nat)
      returns (p': Grid)
    requires target < n && target != pivot && Clearing(m, l0, r0, l, r, p, n, pivot, target)
    ensures var v := l[target][pivot];
            Clearing(m, l0, r0, SubtractRow(l, target, pivot, v), SubtractRow(r, target, pivot, v),
                     p', n, pivot, target + 1)
  {
    var v := l[target][pivot];
    p' := AddColMultiple(p, pivot, target, v);
    SubtractKeepsConsistent(m, l, r, p, n, target, pivot, v);
    SubtractKeepsReduced(l, n, target, pivot);
    ClearColumnAdvance(l0, r0, l, r, SubtractRow(l, target, pivot, v), SubtractRow(r, target, pivot, v), n, pivot, target);
  }

  /** The pivot row is skipped by the clearing loop. */
  lemma SkipStep(m: Grid, l0: Grid, r0: Grid, l: Grid, r: Grid, p: Grid, n: nat, pivot: nat)
    requires Clearing(m, l0, r0, l, r, p, n, pivot, pivot)
    ensures Clearing(m, l0, r0, l, r, p, n, pivot, pivot + 1)
  {
    ClearColumnStep(l0, l0, n, pivot, pivot);
    ClearColumnStep(l0, r0, n, pivot, pivot);
  }

  /** Once L is the identity, R is a two-sided inverse of M. */
  lemma ConsistentDone(m: Grid, l: Grid, r: Grid, p: Grid, n: nat)
    requires Consistent(m, l, r, p, n) && ReducedColumns(l, n, n)
    ensures InverseOf(r, m, n)
  {
    forall k | 0 <= k < n
      ensures l[k] == Identity(n)[k]
    {
    }
    assert l == Identity(n);
    IdentityRight(p, n);
  }

  /**
   * When the first `row` columns of L are those of the identity and column `row`
   * is zero from row `row` down, column `row` is a combination of the columns
   * before it: `y` records that combination, so L maps it to zero.
   */
  lemma StuckColumnKernel(l: Grid, n: nat, row: nat) returns (y: Vector)
    requires IsMatrix(l, n, n) && row < n && ReducedColumns(l, n, row)
    requires forall k :: row <= k < n ==> l[k][row] == 0.0
    ensures |y| == n && y[row] == 1.0 && MatVec(l, y) == Zeros(n)
  {
    y := seq(n, c requires 0 <= c < n =>
               if c < row then -l[c][row] else if c == row then 1.0 else 0.0);
    forall k | 0 <= k < n
      ensures MatVec(l, y)[k] == 0.0
    {
      var q := Products(l[k], y);
      if k < row {
        forall c | 0 <= c < n && c != k && c != row
          ensures q[c] == 0.0
        {
        }
        assert q[k] + q[row] == -l[k][row] + l[k][row];
        SumPair(q, Zeros(n), k, row);
        SumZero(Zeros(n));
      } else {
        forall c | 0 <= c < n
          ensures q[c] == 0.0
        {
        }
        SumZero(q);
      }
    }
  }

  /**
   * No pivot in column `row`: then M maps a non-zero vector to zero, so no
   * matrix X satisfies X · M == I, and M is singular.
   */
  lemma StuckPivotSingular(m: Grid, l: Grid, r: Grid, p: Grid, n: nat, row: nat)
    requires Consistent(m, l, r, p, n) && row < n && ReducedColumns(l, n, row)
    requires forall k :: row <= k < n ==> l[k][row] == 0.0
    ensures Singular(m, n)
  {
    var y := StuckColumnKernel(l, n, row);
    MatVecAssoc(p, l, y);
    MatVecZeros(p, n);
    assert MatVec(m, y) == Zeros(n);
    IdentityMatVec(n, y);
    assert y != Zeros(n) by {
      assert y[row] != Zeros(n)[row];
    }
    forall x | IsMatrix(x, n, n)
      ensures MatMul(x, m) != Identity(n)
    {
      MatVecAssoc(x, m, y);
      MatVecZeros(x, n);
    }
  }
}
