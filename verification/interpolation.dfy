/** Bilinear interpolation of a solved price surface at a point (t, S) that
    need not be a grid node. */
module Interpolation {
  import opened Wrappers
  import opened Discretization
  import opened Options
  import opened Surfaces
  import opened RealArith

  /** The values a 32-bit signed integer can hold; converting a floor outside
      this range fails. */
  predicate IsInt32(n: int) {
    -0x8000_0000 <= n < 0x8000_0000
  }

  /** The point a fraction w of the way from x to y. */
  function Lerp(x: real, y: real, w: real): real {
    x + w * (y - x)
  }

  /** The interpolation as two nested linear interpolations: along the price
      axis in rows i and i+1, then along the time axis between the two. */
  function Bilinear(v00: real, v01: real, v10: real, v11: real, l1: real, w1: real): real {
    Lerp(Lerp(v00, v01, w1), Lerp(v10, v11, w1), l1)
  }

  /** The time row below t: floor(t / k). */
  function TimeIndex(g: Grid, T: real, t: real): int
    requires g.iMax != 0 && TimeStep(g, T) != 0.0
  {
    (t / TimeStep(g, T)).Floor
  }

  /** The price column below S: floor(S / h), which does not subtract minS. */
  function PriceIndex(g: Grid, S: real): int
    requires g.jMax != 0 && PriceStep(g) != 0.0
  {
    (S / PriceStep(g)).Floor
  }

  /** The time weight l1: how far t lies past t(i), in steps of k. */
  function TimeWeight(g: Grid, T: real, t: real): real
    requires g.iMax != 0 && TimeStep(g, T) != 0.0
  {
    (t - Time(g, T, TimeIndex(g, T, t))) / TimeStep(g, T)
  }

  /** The price weight w1: how far S lies past S(j), in steps of h. */
  function PriceWeight(g: Grid, S: real): real
    requires g.jMax != 0 && PriceStep(g) != 0.0
  {
    (S - AssetPrice(g, PriceIndex(g, S))) / PriceStep(g)
  }

  /** The four cells (i, j), (i, j+1), (i+1, j), (i+1, j+1) exist. */
  predicate CornersExist(V: Surface, i: int, j: int) {
    0 <= i && i + 1 < |V| && 0 <= j && j + 1 < |V[i]| && j + 1 < |V[i + 1]|
  }

  /** The interpolated price at time t and asset price S, or None where the
      computation fails: a zero step (the floor of an infinite or undefined
      quotient cannot be converted), a floor outside the 32-bit range, or a
      corner of the cell outside the surface. All four corners are read
      whatever the weights. */
  function PriceAt(V: Surface, t: real, S: real, o: EuropeanOption, g: Grid): (r: Option<real>)
    ensures r.Some? ==> g.iMax != 0 && g.jMax != 0 && TimeStep(g, o.T) != 0.0 && PriceStep(g) != 0.0
    ensures r.Some? ==> IsInt32(TimeIndex(g, o.T, t)) && IsInt32(PriceIndex(g, S))
    ensures r.Some? ==> CornersExist(V, TimeIndex(g, o.T, t), PriceIndex(g, S))
    ensures (g.iMax != 0 && g.jMax != 0 && TimeStep(g, o.T) != 0.0 && PriceStep(g) != 0.0
             && IsInt32(TimeIndex(g, o.T, t)) && IsInt32(PriceIndex(g, S))
             && CornersExist(V, TimeIndex(g, o.T, t), PriceIndex(g, S))) ==> r.Some?
  {
    if g.iMax == 0 || g.jMax == 0 || TimeStep(g, o.T) == 0.0 || PriceStep(g) == 0.0 then None
    else
      var i := TimeIndex(g, o.T, t);
      var j := PriceIndex(g, S);
      if !IsInt32(i) || !IsInt32(j) || !CornersExist(V, i, j) then None
      else
        var l1 := TimeWeight(g, o.T, t);
        var l0 := 1.0 - l1;
        var w1 := PriceWeight(g, S);
        var w0 := 1.0 - w1;
        Some(l1 * w1 * V[i + 1][j + 1] + l1 * w0 * V[i + 1][j] + l0 * w1 * V[i][j + 1] + l0 * w0 * V[i][j])
  }

  /** The smallest and largest of four values. */
  function Least(a: real, b: real, c: real, d: real): real {
    var x := if a <= b then a else b;
    var y := if c <= d then c else d;
    if x <= y then x else y
  }

  function Greatest(a: real, b: real, c: real, d: real): real {
    var x := if a >= b then a else b;
    var y := if c >= d then c else d;
    if x >= y then x else y
  }

  /** The floor of x / step brackets x between consecutive multiples of a
      positive step. */
  lemma FloorBrackets(x: real, step: real)
    requires step > 0.0
    ensures (x / step).Floor as real * step <= x < ((x / step).Floor + 1) as real * step
  {
    var q := x / step;
    var f := q.Floor as real;
    var f' := (q.Floor + 1) as real;
    assert q * step == x;
    NonNegativeProduct(q - f, step);
    assert (q - f) * step == x - f * step;
    NonNegativeProduct(f' - q, step);
    assert (f' - q) * step == f' * step - x;
    assert (f' - q) * step != 0.0;
    assert f' * step - x > 0.0;
    assert x < f' * step;
  }

  /** With a positive time step, t lies in [t(i), t(i+1)) for the row i it
      is interpolated in, so the time weight lies in [0, 1). */
  lemma TimeIndexBrackets(g: Grid, T: real, t: real)
    requires g.iMax != 0 && TimeStep(g, T) > 0.0
    ensures Time(g, T, TimeIndex(g, T, t)) <= t < Time(g, T, TimeIndex(g, T, t) + 1)
    ensures 0.0 <= TimeWeight(g, T, t) < 1.0
  {
    var k := TimeStep(g, T);
    var i := TimeIndex(g, T, t);
    FloorBrackets(t, k);
    assert Time(g, T, i) == k * i as real;
    assert Time(g, T, i + 1) == k * (i + 1) as real;
    WeightInUnit(t - k * i as real, k);
  }

  /** A quotient y / s with 0 <= y < s lies in [0, 1). */
  lemma WeightInUnit(y: real, s: real)
    requires s > 0.0 && 0.0 <= y < s
    ensures 0.0 <= y / s < 1.0
  {
    var q := y / s;
    assert q * s == y;
    if q < 0.0 {
      NonNegativeProduct(-q, s);
    }
    if q >= 1.0 {
      NonNegativeProduct(q - 1.0, s);
    }
  }

  /** The price column is found from S itself rather than from S - minS:
      S lies in [h j, h (j+1)), and the price weight falls short of the
      fraction of the way from h j to h (j+1) by minS / h. */
  lemma PriceIndexIgnoresMinS(g: Grid, S: real)
    requires g.jMax != 0 && PriceStep(g) > 0.0
    ensures PriceIndex(g, S) as real * PriceStep(g) <= S < (PriceIndex(g, S) + 1) as real * PriceStep(g)
    ensures 0.0 <= PriceWeight(g, S) + g.minS / PriceStep(g) < 1.0
  {
    var h := PriceStep(g);
    var j := PriceIndex(g, S);
    FloorBrackets(S, h);
    WeightInUnit(S - j as real * h, h);
    assert AssetPrice(g, j) == g.minS + h * j as real;
    assert PriceWeight(g, S) == (S - g.minS - h * j as real) / h;
    assert (S - g.minS - h * j as real) / h + g.minS / h == (S - j as real * h) / h;
  }

  /** With minS = 0 the price weight lies in [0, 1); once minS reaches h
      it is negative, so the blend extrapolates outside its cell. */
  lemma PriceWeightRange(g: Grid, S: real)
    requires g.jMax != 0 && PriceStep(g) > 0.0
    ensures g.minS == 0.0 ==> 0.0 <= PriceWeight(g, S) < 1.0
    ensures g.minS >= PriceStep(g) ==> PriceWeight(g, S) < 0.0
  {
    PriceIndexIgnoresMinS(g, S);
    ShiftedWeight(PriceWeight(g, S), g.minS, PriceStep(g));
  }

  /** A weight w with w + m / h in [0, 1) lies in [0, 1) when m = 0 and is
      negative once m reaches h. */
  lemma ShiftedWeight(w: real, m: real, h: real)
    requires h > 0.0 && 0.0 <= w + m / h < 1.0
    ensures m == 0.0 ==> 0.0 <= w < 1.0
    ensures m >= h ==> w < 0.0
  {
    if m >= h {
      var q := m / h;
      assert q * h == m;
      if q < 1.0 {
        PositiveProduct(1.0 - q, h);
      }
    }
  }

  /** The blend weights l1 w1, l1 w0, l0 w1, l0 w0 add up to 1. */
  lemma BlendWeightsSum(l1: real, w1: real)
    ensures l1 * w1 + l1 * (1.0 - w1) + (1.0 - l1) * w1 + (1.0 - l1) * (1.0 - w1) == 1.0
  {}

  /** The four-term blend is the nested linear interpolation. */
  lemma BlendIsBilinear(v00: real, v01: real, v10: real, v11: real, l1: real, w1: real)
    ensures l1 * w1 * v11 + l1 * (1.0 - w1) * v10 + (1.0 - l1) * w1 * v01 + (1.0 - l1) * (1.0 - w1) * v00
      == Bilinear(v00, v01, v10, v11, l1, w1)
  {}

  /** A defined interpolation is the nested linear interpolation of the four
      corners of the cell, with the time and price weights. */
  lemma PriceAtIsBilinear(V: Surface, t: real, S: real, o: EuropeanOption, g: Grid)
    requires PriceAt(V, t, S, o, g).Some?
    ensures PriceAt(V, t, S, o, g).value
      == Bilinear(V[TimeIndex(g, o.T, t)][PriceIndex(g, S)], V[TimeIndex(g, o.T, t)][PriceIndex(g, S) + 1],
                  V[TimeIndex(g, o.T, t) + 1][PriceIndex(g, S)], V[TimeIndex(g, o.T, t) + 1][PriceIndex(g, S) + 1],
                  TimeWeight(g, o.T, t), PriceWeight(g, S))
  {
    var i, j := TimeIndex(g, o.T, t), PriceIndex(g, S);
    BlendIsBilinear(V[i][j], V[i][j + 1], V[i + 1][j], V[i + 1][j + 1], TimeWeight(g, o.T, t), PriceWeight(g, S));
  }

  /** A weight in [0, 1] keeps a linear interpolation between its ends. */
  lemma LerpBetween(x: real, y: real, w: real)
    requires 0.0 <= w <= 1.0
    ensures (if x <= y then x else y) <= Lerp(x, y, w) <= (if x >= y then x else y)
  {
    if x <= y {
      NonNegativeProduct(w, y - x);
      NonNegativeProduct(1.0 - w, y - x);
    } else {
      NonNegativeProduct(w, x - y);
      NonNegativeProduct(1.0 - w, x - y);
    }
  }

  /** Nested interpolation with weights in [0, 1] stays within the corner
      values. */
  lemma BilinearBounded(v00: real, v01: real, v10: real, v11: real, l1: real, w1: real)
    requires 0.0 <= l1 <= 1.0 && 0.0 <= w1 <= 1.0
    ensures Least(v00, v01, v10, v11) <= Bilinear(v00, v01, v10, v11, l1, w1) <= Greatest(v00, v01, v10, v11)
  {
    LerpBetween(v00, v01, w1);
    LerpBetween(v10, v11, w1);
    LerpBetween(Lerp(v00, v01, w1), Lerp(v10, v11, w1), l1);
  }

  /** On a grid starting at price 0 with positive steps, a defined
      interpolation lies between the least and greatest corner values. */
  lemma PriceAtBounded(V: Surface, t: real, S: real, o: EuropeanOption, g: Grid)
    requires g.minS == 0.0
    requires PriceAt(V, t, S, o, g).Some?
    requires TimeStep(g, o.T) > 0.0 && PriceStep(g) > 0.0
    ensures Least(V[TimeIndex(g, o.T, t)][PriceIndex(g, S)], V[TimeIndex(g, o.T, t)][PriceIndex(g, S) + 1],
                  V[TimeIndex(g, o.T, t) + 1][PriceIndex(g, S)], V[TimeIndex(g, o.T, t) + 1][PriceIndex(g, S) + 1])
      <= PriceAt(V, t, S, o, g).value
      <= Greatest(V[TimeIndex(g, o.T, t)][PriceIndex(g, S)], V[TimeIndex(g, o.T, t)][PriceIndex(g, S) + 1],
                  V[TimeIndex(g, o.T, t) + 1][PriceIndex(g, S)], V[TimeIndex(g, o.T, t) + 1][PriceIndex(g, S) + 1])
  {
    var i, j := TimeIndex(g, o.T, t), PriceIndex(g, S);
    TimeIndexBrackets(g, o.T, t);
    PriceWeightRange(g, S);
    PriceAtIsBilinear(V, t, S, o, g);
    BilinearBounded(V[i][j], V[i][j + 1], V[i + 1][j], V[i + 1][j + 1], TimeWeight(g, o.T, t), PriceWeight(g, S));
  }

  /** On a grid starting at price 0, interpolating exactly at a node (t(i),
      S(j)) whose cell lies inside the surface returns the node's value. */
  lemma PriceAtNode(V: Surface, o: EuropeanOption, g: Grid, i: int, j: int)
    requires g.minS == 0.0 && g.iMax != 0 && g.jMax != 0
    requires TimeStep(g, o.T) != 0.0 && PriceStep(g) != 0.0
    requires IsInt32(i) && IsInt32(j) && CornersExist(V, i, j)
    ensures PriceAt(V, Time(g, o.T, i), AssetPrice(g, j), o, g) == Some(V[i][j])
  {
    var k, h := TimeStep(g, o.T), PriceStep(g);
    assert Time(g, o.T, i) / k == i as real;
    assert TimeIndex(g, o.T, Time(g, o.T, i)) == i;
    assert TimeWeight(g, o.T, Time(g, o.T, i)) == 0.0;
    assert AssetPrice(g, j) / h == j as real;
    assert PriceIndex(g, AssetPrice(g, j)) == j;
    assert PriceWeight(g, AssetPrice(g, j)) == 0.0;
  }

  /** Interpolating at maturity t = T fails on a surface of iMax+1 rows:
      the cell's upper row would be row iMax+1. */
  lemma PriceAtFailsAtMaturity(V: Surface, S: real, o: EuropeanOption, g: Grid)
    requires g.iMax != 0 && |V| == g.iMax + 1
    ensures PriceAt(V, o.T, S, o, g) == None
  {
    var k := TimeStep(g, o.T);
    if k != 0.0 {
      TimeStepSpans(g, o.T);
      assert o.T / k == g.iMax as real;
      assert TimeIndex(g, o.T, o.T) == g.iMax;
    }
  }

  /** On a grid starting at price 0, interpolating at the top price maxS
      fails when the rows hold jMax+1 columns: the cell's upper column would
      be column jMax+1. */
  lemma PriceAtFailsAtMaxPrice(V: Surface, t: real, o: EuropeanOption, g: Grid)
    requires g.minS == 0.0 && g.jMax != 0
    requires forall i | 0 <= i < |V| :: |V[i]| == g.jMax + 1
    ensures PriceAt(V, t, g.maxS, o, g) == None
  {
    var h := PriceStep(g);
    if h != 0.0 {
      PriceStepSpans(g);
      assert g.maxS / h == g.jMax as real;
      assert PriceIndex(g, g.maxS) == g.jMax;
    }
  }

  /** The documented example: on the grid (0, 20, 1, 1) with maturity 1 and
      the surface [[1, 2], [3, 4]], the price at t = 0.25, S = 5 is 1.75. */
  lemma PriceAtExample()
    ensures PriceAt([[1.0, 2.0], [3.0, 4.0]], 0.25, 5.0, NewOption(Call, 1.0, [10.0]), Grid(0.0, 20.0, 1, 1)) == Some(1.75)
  {
    var g := Grid(0.0, 20.0, 1, 1);
    var o := NewOption(Call, 1.0, [10.0]);
    assert TimeStep(g, o.T) == 1.0 && PriceStep(g) == 20.0;
    assert TimeIndex(g, o.T, 0.25) == 0 && PriceIndex(g, 5.0) == 0;
    assert TimeWeight(g, o.T, 0.25) == 0.25 && PriceWeight(g, 5.0) == 0.25;
  }
}
