/** The explicit finite-difference scheme: each earlier time row is a direct
    three-term combination of the later one, with no linear system. */
module ExplicitMethod {
  import opened Wrappers
  import opened Discretization
  import opened Market
  import opened Options
  import opened Surfaces
  import opened RealArith

  /** Coefficient of V(i, j-1). */
  function A(s: real, h: real, k: real, r: real, vol: real): real
    requires h != 0.0
  {
    (0.5 * k * s / h) * (vol * vol * s / h - r)
  }

  /** Coefficient of V(i, j). */
  function B(s: real, h: real, k: real, r: real, vol: real): real
    requires h != 0.0
  {
    1.0 - k * ((vol * s / h) * (vol * s / h) + r)
  }

  /** Coefficient of V(i, j+1). */
  function C(s: real, h: real, k: real, r: real, vol: real): real
    requires h != 0.0
  {
    (0.5 * s * k / h) * (vol * vol * s / h + r)
  }

  /** The explicit weights written with the ratio u = s/h. */
  lemma WeightAInRatio(s: real, h: real, k: real, r: real, vol: real)
    requires h != 0.0
    ensures A(s, h, k, r, vol) == 0.5 * k * (s / h) * (vol * vol * (s / h) - r)
  {}

  lemma WeightBInRatio(s: real, h: real, k: real, r: real, vol: real)
    requires h != 0.0
    ensures B(s, h, k, r, vol) == 1.0 - k * ((vol * (s / h)) * (vol * (s / h)) + r)
  {
    DivAssoc(vol, s, h);
  }

  lemma WeightCInRatio(s: real, h: real, k: real, r: real, vol: real)
    requires h != 0.0
    ensures C(s, h, k, r, vol) == 0.5 * k * (s / h) * (vol * vol * (s / h) + r)
  {}

  /** The polynomial identity behind CoefficientSum. */
  lemma WeightPolynomialSum(k: real, u: real, r: real, vol: real)
    ensures 0.5 * k * u * (vol * vol * u - r) + (1.0 - k * ((vol * u) * (vol * u) + r))
            + 0.5 * k * u * (vol * vol * u + r) == 1.0 - k * r
  {}

  /** The three weights add up to 1 - k r at every asset price: the scheme
      discounts a constant row by one step of the risk-free rate. */
  lemma CoefficientSum(s: real, h: real, k: real, r: real, vol: real)
    requires h != 0.0
    ensures A(s, h, k, r, vol) + B(s, h, k, r, vol) + C(s, h, k, r, vol) == 1.0 - k * r
  {
    WeightAInRatio(s, h, k, r, vol);
    WeightBInRatio(s, h, k, r, vol);
    WeightCInRatio(s, h, k, r, vol);
    WeightPolynomialSum(k, s / h, r, vol);
  }

  /** The stability guard exactly as the scheme tests it. */
  predicate Unstable(k: real, h: real) {
    k <= 0.0 && k >= h * h / 2.0
  }

  /** With q standing for h^2: a positive q leaves no k in the guard's range. */
  lemma NoStepBetween(k: real, q: real)
    requires Positive(q)
    ensures !(k <= 0.0 && k >= q / 2.0)
  {}

  /** The guard only fires for k = 0 on a degenerate grid with h = 0; in
      particular it never rejects a step when h != 0, whatever k is. */
  lemma GuardRejectsOnlyDegenerate(k: real, h: real)
    ensures Unstable(k, h) <==> k == 0.0 && h == 0.0
    ensures h != 0.0 ==> !Unstable(k, h)
  {
    if h != 0.0 {
      SquarePositive(h);
      NoStepBetween(k, h * h);
    }
  }

  /** The new value at interior price node j, from the later row next. */
  function Combine(g: Grid, m: BlackScholesModel, k: real, next: seq<real>, j: int): real
    requires g.jMax != 0 && PriceStep(g) != 0.0 && 0 < j && j + 1 < |next|
  {
    var s, h := AssetPrice(g, j), PriceStep(g);
    A(s, h, k, m.r, m.volatility) * next[j - 1]
      + B(s, h, k, m.r, m.volatility) * next[j]
      + C(s, h, k, m.r, m.volatility) * next[j + 1]
  }

  /** A flat later row is discounted by one step of the risk-free rate: the
      combination of three equal values v is (1 - k r) v. */
  lemma ConstantRowDiscounts(g: Grid, m: BlackScholesModel, k: real, next: seq<real>, j: int, v: real)
    requires g.jMax != 0 && PriceStep(g) != 0.0 && 0 < j && j + 1 < |next|
    requires next[j - 1] == v && next[j] == v && next[j + 1] == v
    ensures Combine(g, m, k, next, j) == (1.0 - k * m.r) * v
  {
    CoefficientSum(AssetPrice(g, j), PriceStep(g), k, m.r, m.volatility);
  }

  /** Rows from..iMax-1: every interior cell is the three-term combination of
      the row after it. */
  ghost predicate Recurrence(W: Surface, g: Grid, m: BlackScholesModel, k: real, from: int)
    requires g.jMax != 0 && PriceStep(g) != 0.0 && Fits(W, g)
  {
    forall i, j | 0 <= from <= i < g.iMax && 0 < j < g.jMax :: W[i][j] == Combine(g, m, k, W[i + 1], j)
  }

  /** Row i-1 from the later row next: the boundary values in columns 0 and
      jMax, the three-term combination in between; columns past jMax keep
      their values. */
  method StepBack(row: seq<real>, next: seq<real>, g: Grid, m: BlackScholesModel, k: real, lower: real, upper: real)
    returns (r: seq<real>)
    requires 1 <= g.jMax < |row| && |next| > g.jMax && PriceStep(g) != 0.0
    ensures |r| == |row|
    ensures r[0] == lower && r[g.jMax] == upper
    ensures forall j | 0 < j < g.jMax :: r[j] == Combine(g, m, k, next, j)
    ensures r[g.jMax + 1..] == row[g.jMax + 1..]
  {
    r := row[0 := lower][g.jMax := upper];
    var j := 1;
    while j < g.jMax
      invariant 1 <= j <= g.jMax
      invariant |r| == |row|
      invariant r[0] == lower && r[g.jMax] == upper
      invariant forall jj | 1 <= jj < j :: r[jj] == Combine(g, m, k, next, jj)
      invariant r[g.jMax + 1..] == row[g.jMax + 1..]
    {
      r := r[j := Combine(g, m, k, next, j)];
      j := j + 1;
    }
  }

  /** Writing a row that satisfies the recurrence against row i extends the
      recurrence from rows i.. to rows i-1.. */
  lemma ExtendRecurrence(W: Surface, i: int, row: seq<real>, g: Grid, m: BlackScholesModel, k: real)
    requires g.jMax != 0 && PriceStep(g) != 0.0 && Fits(W, g)
    requires 0 < i <= g.iMax && |row| == |W[i - 1]|
    requires Recurrence(W, g, m, k, i)
    requires forall j | 0 < j < g.jMax :: row[j] == Combine(g, m, k, W[i], j)
    ensures Fits(W[i - 1 := row], g) && Recurrence(W[i - 1 := row], g, m, k, i - 1)
  {
    var W' := W[i - 1 := row];
    forall r, j | i - 1 <= r < g.iMax && 0 < j < g.jMax
      ensures W'[r][j] == Combine(g, m, k, W'[r + 1], j)
    {
      assert W'[r + 1] == W[r + 1];
    }
  }

  /** Solves the Black-Scholes equation backwards in time: the terminal row,
      then for each earlier row its two boundary cells and its interior.
      A zero price step is admitted only where the guard rejects it. */
  method Solve(V: Surface, o: EuropeanOption, m: BlackScholesModel, g: Grid, c: Conditions)
    returns (res: Result<Surface, SolveError>)
    requires g.jMax >= 1 && Fits(V, g)
    requires g.iMax >= 1 ==> PriceStep(g) != 0.0 || TimeStep(g, o.T) == 0.0
    ensures res.Failure? <==> g.iMax >= 1 && Unstable(TimeStep(g, o.T), PriceStep(g))
    ensures res.Success? ==>
      var W := res.value;
      && SameShape(V, W) && Fits(W, g)
      && OutsideUnchanged(V, W, g)
      && TerminalRow(W, g, c)
    ensures res.Success? && g.iMax >= 1 ==>
      var W := res.value;
      && BoundaryColumns(W, g, c, TimeStep(g, o.T), 0)
      && PriceStep(g) != 0.0
      && Recurrence(W, g, m, TimeStep(g, o.T), 0)
  {
    if g.iMax == 0 {
      // No time step: k = T / 0 is not a real number, the guard cannot
      // fire and the backward loop has no row to write.
      var W := SetTerminal(V, g, c);
      return Success(W);
    }
    var k, h := TimeStep(g, o.T), PriceStep(g);
    if Unstable(k, h) {
      return Failure(UnstableConfiguration);
    }
    GuardRejectsOnlyDegenerate(k, h);

    // Terminal condition
    var W := SetTerminal(V, g, c);

    var i := g.iMax;
    while i > 0
      invariant 0 <= i <= g.iMax
      invariant SameShape(V, W) && Fits(W, g)
      invariant OutsideUnchanged(V, W, g)
      invariant TerminalRow(W, g, c)
      invariant BoundaryColumns(W, g, c, k, i)
      invariant Recurrence(W, g, m, k, i)
    {
      var row := StepBack(W[i - 1], W[i], g, m, k, c.lower(k * (i - 1) as real), c.upper(k * (i - 1) as real));
      ReplaceRow(W, i, row, V, g, c, k);
      ExtendRecurrence(W, i, row, g, m, k);
      W := W[i - 1 := row];
      i := i - 1;
    }
    return Success(W);
  }
}
