/**
 * Exact linear algebra over `real`: vectors, rectangular grids, the
 * sums the source accumulates with `+=`, and the matrix products
 * that specify the operations of the Matrix class.
 */
module Algebra {

  type Vector = seq<real>
  type Grid = seq<seq<real>>

  /** Sum of the entries, accumulated left to right as the source's loops do. */
  function Sum(s: Vector): real
  {
    if |s| == 0 then 0.0 else Sum(s[..|s| - 1]) + s[|s| - 1]
  }

  /** Entry-wise products of two vectors of equal length. */
  function Products(a: Vector, b: Vector): (p: Vector)
    requires |a| == |b|
    ensures |p| == |a|
  {
    seq(|a|, k requires 0 <= k < |a| => a[k] * b[k])
  }

  /** The inner product: the sum of the entry-wise products. */
  function Inner(a: Vector, b: Vector): real
    requires |a| == |b|
  {
    Sum(Products(a, b))
  }

  function Zeros(n: nat): (z: Vector)
    ensures |z| == n
  {
    seq(n, _ => 0.0)
  }

  /** Every entry divided by `e`. */
  function DivideBy(s: Vector, e: real): (d: Vector)
    requires e != 0.0
    ensures |d| == |s|
  {
    seq(|s|, k requires 0 <= k < |s| => s[k] / e)
  }

  /** `s - v·t`, entry by entry. */
  function SubtractMultiple(s: Vector, v: real, t: Vector): (d: Vector)
    requires |s| == |t|
    ensures |d| == |s|
  {
    seq(|s|, k requires 0 <= k < |s| => s[k] - v * t[k])
  }

  /** `s + c·t`, entry by entry. */
  function AddMultiple(s: Vector, c: real, t: Vector): (d: Vector)
    requires |s| == |t|
    ensures |d| == |s|
  {
    seq(|s|, k requires 0 <= k < |s| => s[k] + c * t[k])
  }

  /** Number of columns of a grid, read off its first row. */
  function Cols(g: Grid): nat
  {
    if |g| == 0 then 0 else |g[0]|
  }

  /** `g` has `h` rows of `w` entries each. */
  predicate IsMatrix(g: Grid, h: nat, w: nat)
  {
    |g| == h && forall i :: 0 <= i < h ==> |g[i]| == w
  }

  function Column(g: Grid, j: nat): (c: Vector)
    requires forall k :: 0 <= k < |g| ==> j < |g[k]|
    ensures |c| == |g|
  {
    seq(|g|, k requires 0 <= k < |g| => g[k][j])
  }

  /** Row vector times matrix: entry `j` is `u` against column `j` of `g`. */
  function VecMat(u: Vector, g: Grid, w: nat): (r: Vector)
    requires |u| == |g|
    requires forall k :: 0 <= k < |g| ==> |g[k]| == w
    ensures |r| == w
  {
    seq(w, j requires 0 <= j < w => Inner(u, Column(g, j)))
  }

  /** Matrix times column vector: entry `i` is row `i` of `g` against `v`. */
  function MatVec(g: Grid, v: Vector): (r: Vector)
    requires forall i :: 0 <= i < |g| ==> |g[i]| == |v|
    ensures |r| == |g|
  {
    seq(|g|, i requires 0 <= i < |g| => Inner(g[i], v))
  }

  /** The matrix product: entry `(i, j)` is row `i` of `a` against column `j` of `b`. */
  function MatMul(a: Grid, b: Grid): (c: Grid)
    requires IsMatrix(a, |a|, |b|) && IsMatrix(b, |b|, Cols(b))
    ensures IsMatrix(c, |a|, Cols(b))
  {
    seq(|a|, i requires 0 <= i < |a| => VecMat(a[i], b, Cols(b)))
  }

  /** The n-by-n identity: 1 on the diagonal and 0 elsewhere. */
  function Identity(n: nat): (g: Grid)
    ensures IsMatrix(g, n, n) && Cols(g) == n
  {
    seq(n, y => seq(n, x => if x == y then 1.0 else 0.0))
  }

  /** `r` is a two-sided inverse of the n-by-n grid `m`. */
  predicate InverseOf(r: Grid, m: Grid, n: nat)
  {
    && IsMatrix(r, n, n) && IsMatrix(m, n, n)
    && MatMul(r, m) == Identity(n) && MatMul(m, r) == Identity(n)
  }

  /** No n-by-n grid is a left inverse of `m`. */
  ghost predicate Singular(m: Grid, n: nat)
    requires IsMatrix(m, n, n)
  {
    forall x :: IsMatrix(x, n, n) ==> MatMul(x, m) != Identity(n)
  }

  // ---------------------------------------------------------------------
  // Sums

  lemma {:induction false} SumZero(s: Vector)
    requires forall k :: 0 <= k < |s| ==> s[k] == 0.0
    ensures Sum(s) == 0.0
  {
    if |s| > 0 {
      SumZero(s[..|s| - 1]);
    }
  }

  /** Replacing one entry changes the sum by the difference. */
  lemma {:induction false} SumUpdate(s: Vector, i: nat, x: real)
    requires i < |s|
    ensures Sum(s[i := x]) == Sum(s) - s[i] + x
  {
    var n := |s|;
    if i == n - 1 {
      assert s[i := x][..n - 1] == s[..n - 1];
    } else {
      SumUpdate(s[..n - 1], i, x);
      assert s[i := x][..n - 1] == s[..n - 1][i := x];
    }
  }

  /** A sum with one possibly non-zero entry is that entry. */
  lemma SumSingle(s: Vector, i: nat)
    requires i < |s|
    requires forall k :: 0 <= k < |s| && k != i ==> s[k] == 0.0
    ensures Sum(s) == s[i]
  {
    var z := Zeros(|s|);
    SumZero(z);
    SumUpdate(z, i, s[i]);
    assert z[i := s[i]] == s;
  }

  /** Two sequences that differ at two places only, with equal totals there, have equal sums. */
  lemma SumPair(s: Vector, t: Vector, i: nat, j: nat)
    requires |s| == |t| && i < |s| && j < |s| && i != j
    requires forall k :: 0 <= k < |s| && k != i && k != j ==> s[k] == t[k]
    requires s[i] + s[j] == t[i] + t[j]
    ensures Sum(s) == Sum(t)
  {
    SumUpdate(s, i, t[i]);
    SumUpdate(s[i := t[i]], j, t[j]);
    assert s[i := t[i]][j := t[j]] == t;
  }

  /** The sum of `s - v·t` is the sum of `s` less `v` times the sum of `t`. */
  lemma {:induction false} SumSubtractMultiple(s: Vector, v: real, t: Vector)
    requires |s| == |t|
    ensures Sum(SubtractMultiple(s, v, t)) == Sum(s) - v * Sum(t)
  {
    forall k | 0 <= k < |s|
      ensures SubtractMultiple(s, v, t)[k] == AddMultiple(s, -v, t)[k]
    {
      assert s[k] - v * t[k] == s[k] + (-v) * t[k];
    }
    assert SubtractMultiple(s, v, t) == AddMultiple(s, -v, t);
    SumAddMultiple(s, -v, t);
  }

  /** Dividing every entry by `e` divides the sum by `e`. */
  lemma {:induction false} SumDivideBy(s: Vector, e: real)
    requires e != 0.0
    ensures Sum(DivideBy(s, e)) == Sum(s) / e
  {
    var n := |s|;
    if n > 0 {
      var d := DivideBy(s, e);
      assert d[..n - 1] == DivideBy(s[..n - 1], e);
      SumDivideBy(s[..n - 1], e);
      assert Sum(s[..n - 1]) / e + s[n - 1] / e == (Sum(s[..n - 1]) + s[n - 1]) / e;
    }
  }

  /** `s + c·t` has sum `Sum(s) + c·Sum(t)`: as `SumSubtractMultiple`, with the sign the associativity proof needs. */
  lemma {:induction false} SumAddMultiple(s: Vector, c: real, t: Vector)
    requires |s| == |t|
    ensures Sum(AddMultiple(s, c, t)) == Sum(s) + c * Sum(t)
  {
    var n := |s|;
    if n > 0 {
      var d, d' := AddMultiple(s, c, t), AddMultiple(s[..n - 1], c, t[..n - 1]);
      forall k | 0 <= k < n - 1
        ensures d'[k] == d[k]
      {
      }
      assert d[..n - 1] == d';
      SumAddMultiple(s[..n - 1], c, t[..n - 1]);
      assert c * Sum(t[..n - 1]) + c * t[n - 1] == c * (Sum(t[..n - 1]) + t[n - 1]);
    }
  }

  // ---------------------------------------------------------------------
  // The identity matrix

  /** Row `i` of the identity picks entry `i` of any vector. */
  lemma IdentityRowInner(n: nat, i: nat, v: Vector)
    requires i < n && |v| == n
    ensures Inner(Identity(n)[i], v) == v[i]
  {
    SumSingle(Products(Identity(n)[i], v), i);
  }

  /** Column `j` of the identity picks entry `j` of any vector. */
  lemma InnerIdentityColumn(u: Vector, j: nat)
    requires j < |u|
    ensures Inner(u, Column(Identity(|u|), j)) == u[j]
  {
    SumSingle(Products(u, Column(Identity(|u|), j)), j);
  }

  /** The identity leaves every vector of its size unchanged. */
  lemma IdentityMatVec(n: nat, v: Vector)
    requires |v| == n
    ensures MatVec(Identity(n), v) == v
  {
    forall i | 0 <= i < n
      ensures MatVec(Identity(n), v)[i] == v[i]
    {
      IdentityRowInner(n, i, v);
    }
  }

  /** `I · a == a`. */
  lemma IdentityLeft(a: Grid, w: nat)
    requires IsMatrix(a, |a|, w) && |a| > 0
    ensures MatMul(Identity(|a|), a) == a
  {
    var n := |a|;
    forall i, j | 0 <= i < n && 0 <= j < w
      ensures MatMul(Identity(n), a)[i][j] == a[i][j]
    {
      IdentityRowInner(n, i, Column(a, j));
    }
    forall i | 0 <= i < n
      ensures MatMul(Identity(n), a)[i] == a[i]
    {
    }
  }

  /** `a · I == a`. */
  lemma IdentityRight(a: Grid, n: nat)
    requires IsMatrix(a, |a|, n)
    ensures MatMul(a, Identity(n)) == a
  {
    forall i, j | 0 <= i < |a| && 0 <= j < n
      ensures MatMul(a, Identity(n))[i][j] == a[i][j]
    {
      InnerIdentityColumn(a[i], j);
    }
    forall i | 0 <= i < |a|
      ensures MatMul(a, Identity(n))[i] == a[i]
    {
    }
  }

  /** A matrix maps the zero vector to the zero vector. */
  lemma MatVecZeros(g: Grid, n: nat)
    requires IsMatrix(g, |g|, n)
    ensures MatVec(g, Zeros(n)) == Zeros(|g|)
  {
    forall i | 0 <= i < |g|
      ensures MatVec(g, Zeros(n))[i] == 0.0
    {
      SumZero(Products(g[i], Zeros(n)));
    }
  }

  // ---------------------------------------------------------------------
  // Associativity

  /** Dropping the last entry of `u` and the last row of `g` drops one term from every entry of `u · g`. */
  lemma VecMatSplit(u: Vector, g: Grid, w: nat)
    requires |u| == |g| > 0
    requires forall k :: 0 <= k < |g| ==> |g[k]| == w
    ensures VecMat(u, g, w)
         == AddMultiple(VecMat(u[..|u| - 1], g[..|g| - 1], w), u[|u| - 1], g[|g| - 1])
  {
    var n := |u|;
    forall j | 0 <= j < w
      ensures VecMat(u, g, w)[j]
           == AddMultiple(VecMat(u[..n - 1], g[..n - 1], w), u[n - 1], g[n - 1])[j]
    {
      var q, q' := Products(u, Column(g, j)), Products(u[..n - 1], Column(g[..n - 1], j));
      forall k | 0 <= k < n - 1
        ensures q'[k] == q[k]
      {
      }
      assert q[..n - 1] == q';
    }
  }

  lemma ProductsAddMultiple(p: Vector, c: real, t: Vector, x: Vector)
    requires |p| == |t| == |x|
    ensures Products(AddMultiple(p, c, t), x) == AddMultiple(Products(p, x), c, Products(t, x))
  {
    forall j | 0 <= j < |x|
      ensures Products(AddMultiple(p, c, t), x)[j] == AddMultiple(Products(p, x), c, Products(t, x))[j]
    {
      assert (p[j] + c * t[j]) * x[j] == p[j] * x[j] + c * (t[j] * x[j]);
    }
  }

  /** The inner product splits off its last term. */
  lemma InnerSplit(a: Vector, b: Vector)
    requires |a| == |b| > 0
    ensures Inner(a, b) == Inner(a[..|a| - 1], b[..|b| - 1]) + a[|a| - 1] * b[|b| - 1]
  {
    var n := |a|;
    var q, q' := Products(a, b), Products(a[..n - 1], b[..n - 1]);
    forall k | 0 <= k < n - 1
      ensures q'[k] == q[k]
    {
    }
    assert q[..n - 1] == q';
  }

  /** `(u · g) · x` splits off the term of the last row of `g`. */
  lemma VecMatInnerSplit(u: Vector, g: Grid, x: Vector)
    requires |u| == |g| > 0
    requires forall k :: 0 <= k < |g| ==> |g[k]| == |x|
    ensures Inner(VecMat(u, g, |x|), x)
         == Inner(VecMat(u[..|u| - 1], g[..|g| - 1], |x|), x) + u[|u| - 1] * Inner(g[|g| - 1], x)
  {
    var n, w := |u|, |x|;
    var p, c, row := VecMat(u[..n - 1], g[..n - 1], w), u[n - 1], g[n - 1];
    VecMatSplit(u, g, w);
    ProductsAddMultiple(p, c, row, x);
    SumAddMultiple(Products(p, x), c, Products(row, x));
  }

  /** `u · (g · x)` splits off the term of the last row of `g`. */
  lemma InnerMatVecSplit(u: Vector, g: Grid, x: Vector)
    requires |u| == |g| > 0
    requires forall k :: 0 <= k < |g| ==> |g[k]| == |x|
    ensures Inner(u, MatVec(g, x)) == Inner(u[..|u| - 1], MatVec(g[..|g| - 1], x)) + u[|u| - 1] * Inner(g[|g| - 1], x)
  {
    var n, mv, g' := |u|, MatVec(g, x), g[..|g| - 1];
    forall k | 0 <= k < n - 1
      ensures mv[k] == MatVec(g', x)[k]
    {
    }
    assert mv[..n - 1] == MatVec(g', x);
    InnerSplit(u, mv);
  }

  /** `(u · g) · x == u · (g · x)` for a row vector `u`: the double-sum interchange. */
  lemma {:induction false} InnerVecMat(u: Vector, g: Grid, x: Vector)
    requires |u| == |g|
    requires forall k :: 0 <= k < |g| ==> |g[k]| == |x|
    ensures Inner(VecMat(u, g, |x|), x) == Inner(u, MatVec(g, x))
  {
    if |u| == 0 {
      assert VecMat(u, g, |x|) == Zeros(|x|);
      SumZero(Products(Zeros(|x|), x));
    } else {
      InnerVecMat(u[..|u| - 1], g[..|g| - 1], x);
      VecMatInnerSplit(u, g, x);
      InnerMatVecSplit(u, g, x);
    }
  }

  /** `(a · b) · x == a · (b · x)`. */
  lemma MatVecAssoc(a: Grid, b: Grid, x: Vector)
    requires IsMatrix(a, |a|, |b|) && IsMatrix(b, |b|, |x|) && |b| > 0
    ensures MatVec(MatMul(a, b), x) == MatVec(a, MatVec(b, x))
  {
    forall i | 0 <= i < |a|
      ensures MatVec(MatMul(a, b), x)[i] == MatVec(a, MatVec(b, x))[i]
    {
      InnerVecMat(a[i], b, x);
    }
  }

  /** `(a · b) · c == a · (b · c)`. */
  lemma MatMulAssoc(a: Grid, b: Grid, c: Grid, w: nat, z: nat)
    requires IsMatrix(a, |a|, |b|) && IsMatrix(b, |b|, w) && IsMatrix(c, w, z)
    requires |b| > 0 && w > 0
    ensures MatMul(MatMul(a, b), c) == MatMul(a, MatMul(b, c))
  {
    forall i, j | 0 <= i < |a| && 0 <= j < z
      ensures MatMul(MatMul(a, b), c)[i][j] == MatMul(a, MatMul(b, c))[i][j]
    {
      assert Column(MatMul(b, c), j) == MatVec(b, Column(c, j));
      InnerVecMat(a[i], b, Column(c, j));
    }
    forall i | 0 <= i < |a|
      ensures MatMul(MatMul(a, b), c)[i] == MatMul(a, MatMul(b, c))[i]
    {
    }
  }
}
