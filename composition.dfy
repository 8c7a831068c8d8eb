/**
 * The composite transform of renderCanvas (js.js): a leading view scale
 * right-multiplied by every transformation's matrix in list order, and
 * then inverted.
 */
module Composition {
  import opened Options
  import opened Algebra
  import opened Matrices

  /** The view scale `s` of renderCanvas. */
  const ViewScale: real := 10.0

  /** The leading matrix: scales x and y by `s` and keeps the homogeneous 1. */
  function ScaleMatrix(s: real): (m: Matrix)
    ensures m.Valid() && m.Height() == 3 && m.Width() == 3
    ensures m.grid[0][0] == s && m.grid[1][1] == s && m.grid[2][2] == 1.0
  {
    Matrix([[s, 0.0, 0.0], [0.0, s, 0.0], [0.0, 0.0, 1.0]])
  }

  predicate AllValid(ts: seq<Matrix>)
  {
    forall i :: 0 <= i < |ts| ==> ts[i].Valid()
  }

  /** Every matrix is as tall as its predecessor is wide, `lead` preceding the first. */
  predicate Chained(lead: Matrix, ts: seq<Matrix>)
    requires lead.Valid() && AllValid(ts)
  {
    forall i :: 0 <= i < |ts| ==> ts[i].Height() == InWidth(lead, ts, i)
  }

  /** The width of the matrix before `ts[i]`. */
  function InWidth(lead: Matrix, ts: seq<Matrix>, i: nat): nat
    requires lead.Valid() && AllValid(ts) && i < |ts|
  {
    if i == 0 then lead.Width() else ts[i - 1].Width()
  }

  /** The width of `lead × ts[0] × … × ts[|ts|-1]`. */
  function OutWidth(lead: Matrix, ts: seq<Matrix>): nat
    requires lead.Valid() && AllValid(ts)
  {
    if |ts| == 0 then lead.Width() else ts[|ts| - 1].Width()
  }

  /**
   * The fold `matrix = matrix.matmul(t)` over `ts`, from `lead`. A failed
   * product leaves no matrix to go on with, so the fold is None from there.
   */
  function Compose(lead: Matrix, ts: seq<Matrix>): (c: Option<Matrix>)
    requires lead.Valid() && AllValid(ts)
    ensures |ts| == 0 ==> c == Some(lead)
    ensures c.Some? <==> Chained(lead, ts)
    ensures c.Some? ==> c.value.Valid() && c.value.Height() == lead.Height() && c.value.Width() == OutWidth(lead, ts)
    decreases |ts|
  {
    if |ts| == 0 then Some(lead)
    else
      ChainedPrefix(lead, ts);
      match Compose(lead, ts[..|ts| - 1])
      case None => None
      case Some(acc) => Product(acc, ts[|ts| - 1])
  }

  /** A chain is a shorter chain followed by one more matrix that fits it. */
  lemma ChainedPrefix(lead: Matrix, ts: seq<Matrix>)
    requires lead.Valid() && AllValid(ts) && |ts| > 0
    ensures AllValid(ts[..|ts| - 1])
    ensures Chained(lead, ts) <==>
              Chained(lead, ts[..|ts| - 1]) && ts[|ts| - 1].Height() == OutWidth(lead, ts[..|ts| - 1])
  {
    var pre := ts[..|ts| - 1];
    assert forall i :: 0 <= i < |pre| ==> pre[i] == ts[i];
    if Chained(lead, pre) && ts[|ts| - 1].Height() == OutWidth(lead, pre) {
      forall i | 0 <= i < |ts|
        ensures ts[i].Height() == InWidth(lead, ts, i)
      {
        if i < |pre| {
          assert pre[i].Height() == InWidth(lead, pre, i);
        }
      }
    }
    if Chained(lead, ts) {
      forall i | 0 <= i < |pre|
        ensures pre[i].Height() == InWidth(lead, pre, i)
      {
        assert ts[i].Height() == InWidth(lead, ts, i);
      }
      assert ts[|pre|].Height() == InWidth(lead, ts, |pre|);
    }
  }

  /** One more matrix in the fold: the product of the composite so far with it. */
  lemma ComposeStep(lead: Matrix, ts: seq<Matrix>, i: nat)
    requires lead.Valid() && AllValid(ts) && i < |ts|
    ensures AllValid(ts[..i]) && AllValid(ts[..i + 1])
    ensures Compose(lead, ts[..i + 1]) == match Compose(lead, ts[..i])
                                          case None => None
                                          case Some(acc) => Product(acc, ts[i])
  {
    var pre := ts[..i + 1];
    assert pre[..i] == ts[..i] && pre[i] == ts[i];
    assert forall j :: 0 <= j < |pre| ==> pre[j] == ts[j];
  }

  /** The composition loop of renderCanvas. */
  method ComposeLoop(lead: Matrix, ts: seq<Matrix>) returns (res: Option<Matrix>)
    requires lead.Valid() && AllValid(ts)
    ensures res == Compose(lead, ts)
  {
    res := Some(lead);
    for i := 0 to |ts|
      invariant AllValid(ts[..i]) && res == Compose(lead, ts[..i])
    {
      ComposeStep(lead, ts, i);
      if res.Some? {
        res := res.value.Matmul(ts[i]);
      }
    }
    assert ts[..|ts|] == ts;
  }

  /** Each matrix of `ts` is as tall as the one before it is wide. */
  predicate Linked(ts: seq<Matrix>)
    requires AllValid(ts)
  {
    forall i :: 0 < i < |ts| ==> ts[i].Height() == ts[i - 1].Width()
  }

  /** The product `ts[0] × ts[1] × … × ts[|ts|-1]` of a non-empty list on its own. */
  function ChainGrid(ts: seq<Matrix>): (g: Grid)
    requires |ts| > 0 && AllValid(ts) && Linked(ts)
    ensures IsMatrix(g, ts[0].Height(), ts[|ts| - 1].Width())
    decreases |ts|
  {
    if |ts| == 1 then ts[0].grid
    else
      var pre := ts[..|ts| - 1];
      assert forall i :: 0 <= i < |pre| ==> pre[i] == ts[i];
      MatMul(ChainGrid(pre), ts[|ts| - 1].grid)
  }

  /**
   * The composite is the lead times the product of the whole list:
   * `lead × (ts[0] × … × ts[|ts|-1])`, however the fold groups the products.
   */
  lemma {:induction false} ComposeFactors(lead: Matrix, ts: seq<Matrix>)
    requires lead.Valid() && AllValid(ts) && |ts| > 0 && Chained(lead, ts)
    ensures ts[0].Height() == lead.Width()
    ensures Compose(lead, ts).value.grid == MatMul(lead.grid, ChainGrid(ts))
    decreases |ts|
  {
    assert ts[0].Height() == InWidth(lead, ts, 0);
    if |ts| > 1 {
      var pre, last := ts[..|ts| - 1], ts[|ts| - 1];
      ChainedPrefix(lead, ts);
      assert forall i :: 0 <= i < |pre| ==> pre[i] == ts[i];
      ComposeFactors(lead, pre);
      MatMulAssoc(lead.grid, ChainGrid(pre), last.grid, last.Height(), last.Width());
    }
  }

  /** Applying the matrices of `ts` to `x`, the last one first. */
  function ApplyAll(ts: seq<Matrix>, x: Vector): (y: Vector)
    requires AllValid(ts) && Linked(ts)
    requires |ts| > 0 ==> |x| == ts[|ts| - 1].Width()
    ensures |ts| == 0 ==> y == x
    ensures |ts| > 0 ==> |y| == ts[0].Height()
    decreases |ts|
  {
    if |ts| == 0 then x
    else
      var pre, last := ts[..|ts| - 1], ts[|ts| - 1];
      assert forall i :: 0 <= i < |pre| ==> pre[i] == ts[i];
      assert |pre| > 0 ==> last.Height() == pre[|pre| - 1].Width();
      ApplyAll(pre, MatVec(last.grid, x))
  }

  /**
   * The composite maps a point as the matrices would one after another:
   * the last transformation of the list first, the lead last.
   */
  lemma {:induction false} ApplyComposite(lead: Matrix, ts: seq<Matrix>, x: Vector)
    requires lead.Valid() && AllValid(ts) && Chained(lead, ts) && |x| == OutWidth(lead, ts)
    ensures MatVec(Compose(lead, ts).value.grid, x) == MatVec(lead.grid, ApplyAll(ts, x))
    decreases |ts|
  {
    if |ts| > 0 {
      var pre, last := ts[..|ts| - 1], ts[|ts| - 1];
      ChainedPrefix(lead, ts);
      var acc := Compose(lead, pre).value;
      MatVecAssoc(acc.grid, last.grid, x);
      ApplyComposite(lead, pre, MatVec(last.grid, x));
    }
  }

  /** Folding over `ts + us` is folding over `ts`, then over `us` from that composite. */
  lemma {:induction false} ComposeAppend(lead: Matrix, ts: seq<Matrix>, us: seq<Matrix>)
    requires lead.Valid() && AllValid(ts) && AllValid(us)
    ensures AllValid(ts + us)
    ensures Compose(lead, ts + us) == match Compose(lead, ts)
                                      case None => None
                                      case Some(c) => Compose(c, us)
    decreases |us|
  {
    if |us| == 0 {
      assert ts + us == ts;
    } else {
      var pre := us[..|us| - 1];
      assert (ts + us)[..|ts + us| - 1] == ts + pre;
      ComposeAppend(lead, ts, pre);
    }
  }

  /** The leading matrix scales a point's coordinates by `s`. */
  lemma ScaleMaps(s: real, x: real, y: real)
    ensures MatVec(ScaleMatrix(s).grid, [x, y, 1.0]) == [s * x, s * y, 1.0]
  {
    var g, v := ScaleMatrix(s).grid, [x, y, 1.0];
    SumSingle(Products(g[0], v), 0);
    SumSingle(Products(g[1], v), 1);
    SumSingle(Products(g[2], v), 2);
    var w := MatVec(g, v);
    assert w[0] == Inner(g[0], v) == s * x;
    assert w[1] == Inner(g[1], v) == s * y;
    assert w[2] == Inner(g[2], v) == 1.0;
  }

  /**
   * The transform renderCanvas draws with: the composite of the view scale
   * and `ts`, and that composite's inverse.
   */
  method CanvasTransform(ts: seq<Matrix>) returns (composite: Option<Matrix>, inverse: Option<Matrix>)
    requires AllValid(ts)
    ensures composite == Compose(ScaleMatrix(ViewScale), ts)
    ensures composite.None? ==> inverse.None?
    ensures inverse.Some? ==>
              composite.Some? && composite.value.Width() == 3 && InverseOf(inverse.value.grid, composite.value.grid, 3)
    ensures composite.Some? && composite.value.Width() == 3 && inverse.None? ==> Singular(composite.value.grid, 3)
  {
    var scale := ScaleMatrix(ViewScale);
    composite := ComposeLoop(scale, ts);
    inverse := None;
    if composite.Some? {
      inverse := composite.value.Inverse();
    }
  }
}
