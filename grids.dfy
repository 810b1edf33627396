/** Two-dimensional pixel arrays and the element-wise numpy arithmetic the
    pipeline applies to them, on exact reals.  An array keeps its shape even
    when it has no rows, as a numpy array does. */
module Grids {
  import opened Stats

  datatype Grid = Grid(rows: nat, cols: nat, px: seq<seq<real>>) {
    /** `px` holds `rows` rows of `cols` pixels each. */
    predicate Valid()
    {
      |px| == rows && forall i :: 0 <= i < |px| ==> |px[i]| == cols
    }
  }

  /** A well-formed array: the type of every frame and master in the model. */
  type Image = g: Grid | g.Valid() witness Grid(0, 0, [])

  predicate SameShape(a: Image, b: Image)
  {
    a.rows == b.rows && a.cols == b.cols
  }

  /** Every pixel of `g` equals `v`. */
  predicate Uniform(g: Image, v: real)
  {
    forall i, j :: 0 <= i < g.rows && 0 <= j < g.cols ==> g.px[i][j] == v
  }

  /** No pixel of `g` is zero. */
  predicate NoZero(g: Image)
  {
    forall i, j :: 0 <= i < g.rows && 0 <= j < g.cols ==> g.px[i][j] != 0.0
  }

  /** np.zeros((rows, cols)). */
  function Zeros(rows: nat, cols: nat): (r: Image)
    ensures r.rows == rows && r.cols == cols && Uniform(r, 0.0)
  {
    Grid(rows, cols, seq(rows, i => seq(cols, j => 0.0)))
  }

  /** a + b, element by element. */
  function Add(a: Image, b: Image): (r: Image)
    requires SameShape(a, b)
    ensures SameShape(r, a)
    ensures forall i, j :: 0 <= i < a.rows && 0 <= j < a.cols ==> r.px[i][j] == a.px[i][j] + b.px[i][j]
  {
    Grid(a.rows, a.cols, seq(a.rows, i requires 0 <= i < a.rows =>
      seq(a.cols, j requires 0 <= j < a.cols => a.px[i][j] + b.px[i][j])))
  }

  /** a - b, element by element. */
  function Sub(a: Image, b: Image): (r: Image)
    requires SameShape(a, b)
    ensures SameShape(r, a)
    ensures forall i, j :: 0 <= i < a.rows && 0 <= j < a.cols ==> r.px[i][j] == a.px[i][j] - b.px[i][j]
  {
    Grid(a.rows, a.cols, seq(a.rows, i requires 0 <= i < a.rows =>
      seq(a.cols, j requires 0 <= j < a.cols => a.px[i][j] - b.px[i][j])))
  }

  /** a / t for a scalar t. */
  function Scale(a: Image, t: real): (r: Image)
    requires t != 0.0
    ensures SameShape(r, a)
    ensures forall i, j :: 0 <= i < a.rows && 0 <= j < a.cols ==> r.px[i][j] == a.px[i][j] / t
  {
    Grid(a.rows, a.cols, seq(a.rows, i requires 0 <= i < a.rows =>
      seq(a.cols, j requires 0 <= j < a.cols => a.px[i][j] / t)))
  }

  /** a / b, element by element. */
  function Divide(a: Image, b: Image): (r: Image)
    requires SameShape(a, b) && NoZero(b)
    ensures SameShape(r, a)
    ensures forall i, j :: 0 <= i < a.rows && 0 <= j < a.cols ==> r.px[i][j] == a.px[i][j] / b.px[i][j]
  {
    Grid(a.rows, a.cols, seq(a.rows, i requires 0 <= i < a.rows =>
      seq(a.cols, j requires 0 <= j < a.cols => a.px[i][j] / b.px[i][j])))
  }

  /** np.amin over the whole array: a pixel of `a` that no pixel is below. */
  function Minimum(a: Image): (m: real)
    requires a.rows > 0 && a.cols > 0
    ensures forall i, j :: 0 <= i < a.rows && 0 <= j < a.cols ==> m <= a.px[i][j]
    ensures exists i, j :: 0 <= i < a.rows && 0 <= j < a.cols && m == a.px[i][j]
  {
    var mins := seq(a.rows, i requires 0 <= i < a.rows => SeqMin(a.px[i]));
    var m := SeqMin(mins);
    assert forall i, j :: 0 <= i < a.rows && 0 <= j < a.cols ==> m <= a.px[i][j] by {
      forall i, j | 0 <= i < a.rows && 0 <= j < a.cols ensures m <= a.px[i][j] {
        assert mins[i] in mins;
        assert a.px[i][j] in a.px[i];
      }
    }
    var k :| 0 <= k < a.rows && mins[k] == m;
    var l :| 0 <= l < a.cols && a.px[k][l] == SeqMin(a.px[k]);
    m
  }
}
