/**
 * The Matrix class of js.js: a wrapped row-major grid with a
 * matrix-vector product, a matrix product and a Gauss-Jordan inverse.
 * Operations never change their operands: every result is a new grid.
 */
module Matrices {
  import opened Options
  import opened Algebra
  import opened RowOps

  /** The grid a Matrix holds before its constructor looks at the argument. */
  const DefaultGrid: Grid := [[1.0, 0.0, 0.0], [0.0, 1.0, 0.0], [0.0, 0.0, 1.0]]

  /** The constructor's argument, told apart by the type tests the constructor makes. */
  datatype Argument =
    | FromArray(rows: Grid)       // a 2-D array, wrapped as it is
    | FromMatrix(source: Matrix)  // another Matrix, whose grid is shared
    | FromNumber(size: nat)       // a size: the identity of that size
    | Unrecognised                // anything else, or nothing

  datatype Matrix = Matrix(grid: Grid)
  {
    /** A non-empty grid whose rows are all as long as the first. */
    predicate Valid()
    {
      |grid| > 0 && IsMatrix(grid, |grid|, |grid[0]|)
    }

    function Height(): nat
    {
      |grid|
    }

    function Width(): nat
      requires |grid| > 0
    {
      |grid[0]|
    }

    /**
     * `dot`: the product of this matrix with `vector`. The loops run over
     * `vector.length` in both directions, so a matrix with more rows than
     * the vector has entries contributes only its first `|vector|` rows.
     */
    method Dot(vector: Vector) returns (result: Vector)
      requires Valid() && |vector| == Width() && |vector| <= Height()
      ensures result == MatVec(grid[..|vector|], vector)
    {
      var size := |vector|;
      var v := new real[size](_ => 0.0);
      for row := 0 to size
        invariant forall k :: 0 <= k < row ==> v[k] == Inner(grid[k], vector)
        invariant forall k :: row <= k < size ==> v[k] == 0.0
      {
        for col := 0 to size
          invariant forall k :: 0 <= k < row ==> v[k] == Inner(grid[k], vector)
          invariant forall k :: row < k < size ==> v[k] == 0.0
          invariant v[row] == Sum(Products(grid[row], vector)[..col])
        {
          assert Products(grid[row], vector)[..col + 1][..col] == Products(grid[row], vector)[..col];
          v[row] := v[row] + vector[col] * grid[row][col];
        }
        assert Products(grid[row], vector)[..size] == Products(grid[row], vector);
      }
      result := v[..];
    }

    /**
     * `matmul`: `this × right`, or None (the source's `null`) when this
     * matrix's width is not `right`'s height.
     */
    method Matmul(right: Matrix) returns (res: Option<Matrix>)
      requires Valid() && right.Valid()
      ensures res.None? <==> Width() != right.Height()
      ensures res.Some? ==> res.value.grid == MatMul(grid, right.grid)
    {
      var l, r := grid, right.grid;
      var depth, width, height := |r|, |r[0]|, |l|;
      if |l[0]| != |r| {
        return None;
      }
      var n := new seq<real>[height](_ => Zeros(width));
      for row := 0 to height
        invariant forall k :: 0 <= k < row ==> n[k] == MatMul(l, r)[k]
        invariant forall k :: row <= k < height ==> n[k] == Zeros(width)
      {
        for col := 0 to width
          invariant forall k :: 0 <= k < row ==> n[k] == MatMul(l, r)[k]
          invariant forall k :: row < k < height ==> n[k] == Zeros(width)
          invariant |n[row]| == width
          invariant forall c :: 0 <= c < col ==> n[row][c] == Inner(l[row], Column(r, c))
          invariant forall c :: col <= c < width ==> n[row][c] == 0.0
        {
          AccumulateEntry(n, l, r, row, col);
        }
        assert n[row] == MatMul(l, r)[row];
      }
      assert n[..] == MatMul(l, r);
      return Some(Matrix(n[..]));
    }

    /**
     * `inverse`: None for a non-square grid; otherwise the Gauss-Jordan
     * elimination of `GaussJordan`, which is None for a singular grid.
     */
    method Inverse() returns (res: Option<Matrix>)
      requires Valid()
      ensures Width() != Height() ==> res.None?
      ensures res.Some? ==> Width() == Height() && InverseOf(res.value.grid, grid, Height())
      ensures res.None? && Width() == Height() ==> Singular(grid, Height())
    {
      if |grid| != |grid[0]| {
        return None;
      }
      var inv := GaussJordan(grid, |grid|);
      if inv.Some? {
        res := Some(Matrix(inv.value));
      } else {
        res := None;
      }
    }
  }

  /**
   * The elimination of `inverse`: reduces a copy `l` of the square grid `m`
   * to the identity, repeating every row operation on `r`, which starts as
   * the identity. None when a pivot column has zero on the diagonal and
   * below it.
   */
  method GaussJordan(m: Grid, size: nat) returns (res: Option<Grid>)
    requires IsMatrix(m, size, size) && size > 0
    ensures res.Some? ==> InverseOf(res.value, m, size)
    ensures res.None? ==> Singular(m, size)
  {
    var l, r := WorkingCopies(m, size);
    ConsistentStart(m, size);
    ghost var p := Identity(size);
    for row := 0 to size
      invariant Consistent(m, l[..], r[..], p, size)
      invariant ReducedColumns(l[..], size, row)
    {
      var pivoted;
      pivoted, p := EliminationStep(l, r, row, m, p);
      if !pivoted {
        return None;
      }
    }
    ConsistentDone(m, l[..], r[..], p, size);
    return Some(r[..]);
  }

  /** The working grids of `inverse`: a copy of `m` and the identity of its size. */
  method WorkingCopies(m: Grid, size: nat) returns (l: array<seq<real>>, r: array<seq<real>>)
    requires IsMatrix(m, size, size)
    ensures fresh(l) && fresh(r) && l != r && l.Length == r.Length == size
    ensures l[..] == m && r[..] == Identity(size)
  {
    l := new seq<real>[size](y requires 0 <= y < size =>
                               seq(size, x requires 0 <= x < size => m[y][x]));
    r := new seq<real>[size](y requires 0 <= y < size =>
                               seq(size, x requires 0 <= x < size => if x == y then 1.0 else 0.0));
    assert forall y | 0 <= y < size :: l[y] == m[y];
    assert forall y | 0 <= y < size :: r[y] == Identity(size)[y];
  }

  /** Divides row `row` of both working grids by the pivot `e`, entry by entry. */
  method DivideRowInPlace(l: array<seq<real>>, r: array<seq<real>>, row: nat, e: real)
    requires l != r && row < l.Length == r.Length && |l[row]| == |r[row]| && e != 0.0
    modifies l, r
    ensures l[..] == DivideRow(old(l[..]), row, e)
    ensures r[..] == DivideRow(old(r[..]), row, e)
  {
    var size := |l[row]|;
    ghost var l0, r0 := l[..], r[..];
    for i := 0 to size
      invariant forall k :: 0 <= k < l.Length && k != row ==> l[k] == l0[k] && r[k] == r0[k]
      invariant |l[row]| == size && |r[row]| == size
      invariant forall c :: 0 <= c < size ==> l[row][c] == if c < i then l0[row][c] / e else l0[row][c]
      invariant forall c :: 0 <= c < size ==> r[row][c] == if c < i then r0[row][c] / e else r0[row][c]
    {
      l[row] := l[row][i := l[row][i] / e];
      r[row] := r[row][i := r[row][i] / e];
    }
    assert l[row] == DivideBy(l0[row], e) && r[row] == DivideBy(r0[row], e);
    assert l[..] == DivideRow(l0, row, e) && r[..] == DivideRow(r0, row, e);
  }

  /** Subtracts `v` times row `pivot` from row `target` in both working grids. */
  method SubtractRowInPlace(l: array<seq<real>>, r: array<seq<real>>, target: nat, pivot: nat, v: real)
    requires l != r && target < l.Length == r.Length && pivot < l.Length && target != pivot
    requires |l[target]| == |l[pivot]| == |r[target]| == |r[pivot]|
    modifies l, r
    ensures l[..] == SubtractRow(old(l[..]), target, pivot, v)
    ensures r[..] == SubtractRow(old(r[..]), target, pivot, v)
  {
    var size := |l[target]|;
    ghost var l0, r0 := l[..], r[..];
    for i := 0 to size
      invariant forall k :: 0 <= k < l.Length && k != target ==> l[k] == l0[k] && r[k] == r0[k]
      invariant |l[target]| == size && |r[target]| == size
      invariant forall c :: 0 <= c < size ==>
                  l[target][c] == if c < i then l0[target][c] - v * l0[pivot][c] else l0[target][c]
      invariant forall c :: 0 <= c < size ==>
                  r[target][c] == if c < i then r0[target][c] - v * r0[pivot][c] else r0[target][c]
    {
      l[target] := l[target][i := l[target][i] - v * l[pivot][i]];
      r[target] := r[target][i := r[target][i] - v * r[pivot][i]];
    }
    assert forall c | 0 <= c < size :: l[target][c] == SubtractMultiple(l0[target], v, l0[pivot])[c];
    assert forall c | 0 <= c < size :: r[target][c] == SubtractMultiple(r0[target], v, r0[pivot])[c];
    assert l[target] == SubtractMultiple(l0[target], v, l0[pivot]);
    assert r[target] == SubtractMultiple(r0[target], v, r0[pivot]);
    assert l[..] == SubtractRow(l0, target, pivot, v) && r[..] == SubtractRow(r0, target, pivot, v);
  }

  /** The innermost loop of `matmul`: sums entry (`row`, `col`) of `l × r` into `n`. */
  method AccumulateEntry(n: array<seq<real>>, l: Grid, r: Grid, row: nat, col: nat)
    requires |r| > 0 && IsMatrix(l, |l|, |r|) && IsMatrix(r, |r|, |r[0]|) && row < |l| && col < |r[0]|
    requires row < n.Length && col < |n[row]| && n[row][col] == 0.0
    modifies n
    ensures n[..] == old(n[..])[row := old(n[row])[col := Inner(l[row], Column(r, col))]]
  {
    ghost var n0, q := n[..], Products(l[row], Column(r, col));
    assert n0[row][col := Sum(q[..0])] == n0[row];
    for i := 0 to |r|
      invariant n[..] == n0[row := n0[row][col := Sum(q[..i])]]
    {
      assert q[..i + 1][..i] == q[..i];
      assert Sum(q[..i + 1]) == Sum(q[..i]) + l[row][i] * r[i][col];
      assert n[row][col] == Sum(q[..i]);
      n[row] := n[row][col := n[row][col] + l[row][i] * r[i][col]];
      assert n[row] == n0[row][col := Sum(q[..i + 1])];
    }
    assert q[..|r|] == q;
  }

  /**
   * One pass of the outer loop of `inverse`: finds a non-zero pivot for
   * column `row`, swapping one in from below if need be, then reduces the
   * column. `pivoted` is false when there is none: the column is then zero
   * from row `row` down, which makes `m` singular.
   */
  method EliminationStep(l: array<seq<real>>, r: array<seq<real>>, row: nat, ghost m: Grid, ghost p: Grid)
      returns (pivoted: bool, ghost p': Grid)
    requires l != r && l.Length == r.Length && row < l.Length
    requires Consistent(m, l[..], r[..], p, l.Length) && ReducedColumns(l[..], l.Length, row)
    modifies l, r
    ensures Consistent(m, l[..], r[..], p', l.Length)
    ensures pivoted ==> ReducedColumns(l[..], l.Length, row + 1)
    ensures pivoted ==>
              exists k :: ChosenPivot(old(l[..]), l.Length, row, k) &&
                          PassResult(old(l[..]), old(r[..]), l[..], r[..], l.Length, row, k)
    ensures !pivoted ==> Singular(m, l.Length) && l[..] == old(l[..]) && r[..] == old(r[..])
    ensures !pivoted ==> StuckColumn(old(l[..]), l.Length, row)
  {
    var col := row;
    ghost var l0, r0 := l[..], r[..];
    p' := p;
    var k := row;
    var e := l[row][col];
    if e == 0.0 {
      p', k := SwapPivotIn(l, r, row, m, p);
      e := l[row][col];
      if e == 0.0 {
        StuckPivotSingular(m, l[..], r[..], p', l.Length, row);
        return false, p';
      }
    } else {
      assert SwapRows(l0, row, row) == l0 && SwapRows(r0, row, row) == r0;
    }
    p' := ReduceColumn(l, r, row, e, m, p');
    assert ChosenPivot(l0, l.Length, row, k) && PassResult(l0, r0, l[..], r[..], l.Length, row, k);
    pivoted := true;
  }

  /**
   * The search below a zero pivot: swaps in the first row below `row` with a
   * non-zero entry in column `row`, in both working grids, and returns it.
   * When there is none, nothing changes, the column is zero from row `row`
   * down, and `below` is past the last row.
   */
  method SwapPivotIn(l: array<seq<real>>, r: array<seq<real>>, row: nat, ghost m: Grid, ghost p: Grid)
      returns (ghost p': Grid, below: nat)
    requires l != r && l.Length == r.Length && row < l.Length
    requires Consistent(m, l[..], r[..], p, l.Length)
    requires ReducedColumns(l[..], l.Length, row) && l[row][row] == 0.0
    modifies l, r
    ensures Consistent(m, l[..], r[..], p', l.Length)
    ensures below < l.Length ==> FirstPivotBelow(old(l[..]), l.Length, row, below)
    ensures below >= l.Length ==> l[row][row] == 0.0
    ensures ReducedColumns(l[..], l.Length, row)
    ensures forall k :: FirstPivotBelow(old(l[..]), l.Length, row, k) ==>
              l[..] == SwapRows(old(l[..]), row, k) && r[..] == SwapRows(old(r[..]), row, k)
    ensures (forall k :: row < k < l.Length ==> old(l[k][row]) == 0.0) ==>
              l[..] == old(l[..]) && r[..] == old(r[..]) && p' == p
    ensures l[row][row] == 0.0 ==>
              && l[..] == old(l[..]) && r[..] == old(r[..]) && p' == p
              && forall k :: row <= k < l.Length ==> l[k][row] == 0.0
  {
    var size := l.Length;
    ghost var l0, r0 := l[..], r[..];
    p' := p;
    below := FindPivotBelow(l, row);
    if below < size {
      p' := SwapStep(m, l0, r0, p, size, row, below);
      FirstPivotUnique(l0, size, row, below);
      l[row], l[below] := l[below], l[row];
      r[row], r[below] := r[below], r[row];
      assert l[..] == SwapRows(l0, row, below) && r[..] == SwapRows(r0, row, below);
    }
  }

  /**
   * The loop over `below` in `inverse`: the first row below `row` with a
   * non-zero entry in column `row`, or `l.Length` when there is none.
   */
  method FindPivotBelow(l: array<seq<real>>, row: nat) returns (below: nat)
    requires row < l.Length && IsMatrix(l[..], l.Length, l.Length)
    ensures row < below <= l.Length
    ensures below < l.Length ==> FirstPivotBelow(l[..], l.Length, row, below)
    ensures below == l.Length ==> forall k :: row < k < l.Length ==> l[k][row] == 0.0
  {
    below := row + 1;
    while below < l.Length
      invariant row + 1 <= below <= l.Length
      invariant forall k :: row < k < below ==> l[k][row] == 0.0
    {
      if l[below][row] != 0.0 {
        return;
      }
      below := below + 1;
    }
  }

  /**
   * One pass of the inner elimination loop: with row `pivot` holding a 1 in
   * column `pivot`, clears that column in row `target`.
   */
  method EliminateRow(l: array<seq<real>>, r: array<seq<real>>, target: nat, pivot: nat,
                      ghost m: Grid, ghost p: Grid, ghost l0: Grid, ghost r0: Grid)
      returns (ghost p': Grid)
    requires l != r && l.Length == r.Length && target < l.Length && target != pivot
    requires Clearing(m, l0, r0, l[..], r[..], p, l.Length, pivot, target)
    modifies l, r
    ensures Clearing(m, l0, r0, l[..], r[..], p', l.Length, pivot, target + 1)
    ensures l[..] == SubtractRow(old(l[..]), target, pivot, old(l[target][pivot]))
    ensures r[..] == SubtractRow(old(r[..]), target, pivot, old(l[target][pivot]))
  {
    var v := l[target][pivot];
    p' := SubtractStep(m, l0, r0, l[..], r[..], p, l.Length, target, pivot);
    SubtractRowInPlace(l, r, target, pivot, v);
  }

  /**
   * The step after a non-zero pivot `e` is in place: divides the pivot row by
   * it, then clears column `row` in every other row.
   */
  method ReduceColumn(l: array<seq<real>>, r: array<seq<real>>, row: nat, e: real,
                      ghost m: Grid, ghost p: Grid)
      returns (ghost p': Grid)
    requires l != r && l.Length == r.Length && row < l.Length
    requires Consistent(m, l[..], r[..], p, l.Length)
    requires ReducedColumns(l[..], l.Length, row) && e == l[row][row] != 0.0
    modifies l, r
    ensures Consistent(m, l[..], r[..], p', l.Length)
    ensures ReducedColumns(l[..], l.Length, row + 1)
    ensures IsMatrix(DivideRow(old(l[..]), row, e), l.Length, l.Length)
    ensures IsMatrix(DivideRow(old(r[..]), row, e), l.Length, l.Length)
    ensures var ld := DivideRow(old(l[..]), row, e);
            l[..] == ClearColumn(ld, ld, l.Length, row, l.Length)
    ensures r[..] == ClearColumn(DivideRow(old(l[..]), row, e), DivideRow(old(r[..]), row, e), l.Length, row, l.Length)
  {
    ghost var l0, r0 := l[..], r[..];
    DivideRowInPlace(l, r, row, e);
    DivideKeepsConsistent(m, l0, r0, p, l.Length, row, e);
    DivideKeepsReduced(l0, l.Length, row);
    p' := EliminateColumn(l, r, row, m, MultiplyCol(p, row, e));
  }

  /** The inner elimination loop: clears column `row` in every row but `row`. */
  method EliminateColumn(l: array<seq<real>>, r: array<seq<real>>, row: nat, ghost m: Grid, ghost p: Grid)
      returns (ghost p': Grid)
    requires l != r && l.Length == r.Length && row < l.Length
    requires Consistent(m, l[..], r[..], p, l.Length)
    requires ReducedColumns(l[..], l.Length, row) && l[row][row] == 1.0
    modifies l, r
    ensures Consistent(m, l[..], r[..], p', l.Length)
    ensures ReducedColumns(l[..], l.Length, row + 1)
    ensures l[..] == ClearColumn(old(l[..]), old(l[..]), l.Length, row, l.Length)
    ensures r[..] == ClearColumn(old(l[..]), old(r[..]), l.Length, row, l.Length)
  {
    var size, col := l.Length, row;
    ghost var l0, r0 := l[..], r[..];
    p' := p;
    ClearingStart(m, l0, r0, p, size, col);
    for row2 := 0 to size
      invariant Clearing(m, l0, r0, l[..], r[..], p', size, col, row2)
    {
      if row2 != row {
        p' := EliminateRow(l, r, row2, row, m, p', l0, r0);
      } else {
        SkipStep(m, l0, r0, l[..], r[..], p', size, col);
      }
    }
    ReducedNext(l[..], size, row);
  }

  /** The constructor, `new Matrix(argument)`. */
  function Construct(arg: Argument): (m: Matrix)
    ensures arg.FromArray? ==> m.grid == arg.rows
    ensures arg.FromMatrix? ==> m == arg.source
    ensures arg.FromNumber? ==> IsMatrix(m.grid, arg.size, arg.size) && (arg.size > 0 ==> m.Valid())
    ensures arg.Unrecognised? ==> m.Valid() && m.Height() == 3 && m.Width() == 3
  {
    match arg
    case FromArray(rows) => Matrix(rows)
    case FromMatrix(source) => source
    case FromNumber(n) => Matrix(Identity(n))
    case Unrecognised => Matrix(DefaultGrid)
  }

  /** The value of `a.matmul(b)`, for use where a method cannot be called. */
  function Product(a: Matrix, b: Matrix): (c: Option<Matrix>)
    requires a.Valid() && b.Valid()
    ensures c.Some? ==> c.value.Valid() && c.value.Height() == a.Height() && c.value.Width() == b.Width()
  {
    if a.Width() != b.Height() then None else Some(Matrix(MatMul(a.grid, b.grid)))
  }

  // ---------------------------------------------------------------------
  // Properties of the constructor

  /**
   * A matrix built from a number `n` has ones on the diagonal and zeros
   * elsewhere, and its `dot` (the product `Dot` returns) leaves every vector
   * of length `n` alone.
   */
  lemma NumberGivesIdentity(n: nat, v: Vector)
    requires |v| == n
    ensures forall i, j :: 0 <= i < n && 0 <= j < n ==>
              Construct(FromNumber(n)).grid[i][j] == if i == j then 1.0 else 0.0
    ensures MatVec(Construct(FromNumber(n)).grid[..|v|], v) == v
  {
    assert Identity(n)[..|v|] == Identity(n);
    IdentityMatVec(n, v);
  }

  /** A matrix built from a number `n` is a left identity for every n-row grid. */
  lemma NumberGivesLeftNeutral(n: nat, a: Grid, w: nat)
    requires n > 0 && IsMatrix(a, n, w)
    ensures MatMul(Construct(FromNumber(n)).grid, a) == a
  {
    IdentityLeft(a, w);
  }

  /** A matrix built from a number `n` is a right identity for every n-column grid. */
  lemma NumberGivesRightNeutral(n: nat, a: Grid)
    requires IsMatrix(a, |a|, n)
    ensures MatMul(a, Construct(FromNumber(n)).grid) == a
  {
    IdentityRight(a, n);
  }

  /** Without a recognised argument the matrix stays the 3-by-3 identity. */
  lemma UnrecognisedGivesIdentity()
    ensures Construct(Unrecognised) == Construct(FromNumber(3))
  {
    assert Identity(3)[0] == [1.0, 0.0, 0.0];
    assert Identity(3)[1] == [0.0, 1.0, 0.0];
    assert Identity(3)[2] == [0.0, 0.0, 1.0];
  }
}
