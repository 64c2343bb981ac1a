/** The implicit finite-difference scheme: each earlier time row solves a
    tridiagonal system whose matrix is the same at every step. */
module ImplicitMethod {
  import opened Wrappers
  import opened Discretization
  import opened Market
  import opened Options
  import opened Surfaces
  import opened LinearAlgebra
  import opened RealArith

  /** Coefficient of V(i-1, j-1). */
  function A(s: real, h: real, k: real, r: real, vol: real): real
    requires h != 0.0
  {
    (0.5 * k / h) * (r * s - (vol * s) * (vol * s) / h)
  }

  /** Coefficient of V(i-1, j). */
  function B(s: real, h: real, k: real, r: real, vol: real): real
    requires h != 0.0
  {
    1.0 + k * (r + (vol * s / h) * (vol * s / h))
  }

  /** Coefficient of V(i-1, j+1). */
  function C(s: real, h: real, k: real, r: real, vol: real): real
    requires h != 0.0
  {
    (-0.5 * k / h) * (r * s + (vol * s) * (vol * s) / h)
  }

  /** The implicit weights written with the ratio u = s/h. */
  lemma WeightAInRatio(s: real, h: real, k: real, r: real, vol: real)
    requires h != 0.0
    ensures A(s, h, k, r, vol) == 0.5 * k * (r * (s / h) - (vol * (s / h)) * (vol * (s / h)))
  {}

  lemma WeightBInRatio(s: real, h: real, k: real, r: real, vol: real)
    requires h != 0.0
    ensures B(s, h, k, r, vol) == 1.0 + k * (r + (vol * (s / h)) * (vol * (s / h)))
  {
    DivAssoc(vol, s, h);
  }

  lemma WeightCInRatio(s: real, h: real, k: real, r: real, vol: real)
    requires h != 0.0
    ensures C(s, h, k, r, vol) == -0.5 * k * (r * (s / h) + (vol * (s / h)) * (vol * (s / h)))
  {}

  /** The polynomial identity behind CoefficientSum. */
  lemma WeightPolynomialSum(k: real, u: real, r: real, vol: real)
    ensures 0.5 * k * (r * u - (vol * u) * (vol * u)) + (1.0 + k * (r + (vol * u) * (vol * u)))
            + -0.5 * k * (r * u + (vol * u) * (vol * u)) == 1.0 + k * r
  {}

  /** The three weights add up to 1 + k r at every asset price: a constant
      row solves the implicit step from a row grown by one step of interest. */
  lemma CoefficientSum(s: real, h: real, k: real, r: real, vol: real)
    requires h != 0.0
    ensures A(s, h, k, r, vol) + B(s, h, k, r, vol) + C(s, h, k, r, vol) == 1.0 + k * r
  {
    WeightAInRatio(s, h, k, r, vol);
    WeightBInRatio(s, h, k, r, vol);
    WeightCInRatio(s, h, k, r, vol);
    WeightPolynomialSum(k, s / h, r, vol);
  }

  /** The weights of price node j for time step k. */
  function NodeA(g: Grid, m: BlackScholesModel, k: real, j: int): real
    requires g.jMax != 0 && PriceStep(g) != 0.0
  {
    A(AssetPrice(g, j), PriceStep(g), k, m.r, m.volatility)
  }

  function NodeB(g: Grid, m: BlackScholesModel, k: real, j: int): real
    requires g.jMax != 0 && PriceStep(g) != 0.0
  {
    B(AssetPrice(g, j), PriceStep(g), k, m.r, m.volatility)
  }

  function NodeC(g: Grid, m: BlackScholesModel, k: real, j: int): real
    requires g.jMax != 0 && PriceStep(g) != 0.0
  {
    C(AssetPrice(g, j), PriceStep(g), k, m.r, m.volatility)
  }

  /** Row r of the system belongs to price node r+1; these are its three
      weights, one vector per diagonal, each of length jMax-1. */
  function SubDiagonal(g: Grid, m: BlackScholesModel, k: real): (v: Vector)
    requires g.jMax >= 2 && PriceStep(g) != 0.0
    ensures |v| == g.jMax - 1
  {
    seq(g.jMax - 1, r requires 0 <= r < g.jMax - 1 =>
      NodeA(g, m, k, r + 1))
  }

  function MainDiagonal(g: Grid, m: BlackScholesModel, k: real): (v: Vector)
    requires g.jMax >= 2 && PriceStep(g) != 0.0
    ensures |v| == g.jMax - 1
  {
    seq(g.jMax - 1, r requires 0 <= r < g.jMax - 1 =>
      NodeB(g, m, k, r + 1))
  }

  function SuperDiagonal(g: Grid, m: BlackScholesModel, k: real): (v: Vector)
    requires g.jMax >= 2 && PriceStep(g) != 0.0
    ensures |v| == g.jMax - 1
  {
    seq(g.jMax - 1, r requires 0 <= r < g.jMax - 1 =>
      NodeC(g, m, k, r + 1))
  }

  /** The matrix of the implicit step. */
  function SystemMatrix(g: Grid, m: BlackScholesModel, k: real): Matrix
    requires g.jMax >= 2 && PriceStep(g) != 0.0
  {
    Tridiagonal(SubDiagonal(g, m, k), MainDiagonal(g, m, k), SuperDiagonal(g, m, k))
  }

  /** Builds the matrix of the implicit step: order jMax-1, row r holding
      the weights of price node r+1 around the diagonal and 0 elsewhere. */
  method MatrixA(g: Grid, m: BlackScholesModel, k: real) returns (M: Matrix)
    requires g.jMax >= 2 && PriceStep(g) != 0.0
    ensures M == SystemMatrix(g, m, k)
    ensures IsSquare(M, g.jMax - 1)
    ensures forall r, c | 0 <= r < g.jMax - 1 && 0 <= c < g.jMax - 1 ::
      M[r][c] == if c == r then NodeB(g, m, k, r + 1)
                 else if c + 1 == r then NodeA(g, m, k, r + 1)
                 else if c == r + 1 then NodeC(g, m, k, r + 1)
                 else 0.0
  {
    M := BuildTridiagonal(SubDiagonal(g, m, k), MainDiagonal(g, m, k), SuperDiagonal(g, m, k));
  }

  /** The correction vector z: zero but for the lower boundary's weight in
      its first entry and the upper boundary's weight in its last, written
      in that order, so that with a single interior node the second write
      replaces the first. */
  function Correction(g: Grid, m: BlackScholesModel, k: real, lower: real, upper: real): (z: Vector)
    requires g.jMax >= 2 && PriceStep(g) != 0.0
    ensures |z| == g.jMax - 1
    ensures z[g.jMax - 2] == upper * NodeC(g, m, k, g.jMax - 1)
    ensures g.jMax > 2 ==> z[0] == lower * NodeA(g, m, k, 1)
    ensures forall j | 0 < j < g.jMax - 2 :: z[j] == 0.0
  {
    var z := seq(g.jMax - 1, _ => 0.0);
    var z := z[0 := lower * NodeA(g, m, k, 1)];
    z[g.jMax - 2 := upper * NodeC(g, m, k, g.jMax - 1)]
  }

  /** With a single interior node the lower boundary's contribution is lost:
      z holds the upper boundary's term alone. */
  lemma SingleNodeDropsLowerBoundary(g: Grid, m: BlackScholesModel, k: real, lower: real, upper: real)
    requires g.jMax == 2 && PriceStep(g) != 0.0
    ensures Correction(g, m, k, lower, upper) == [upper * NodeC(g, m, k, 1)]
  {
    var z := Correction(g, m, k, lower, upper);
    assert g.jMax - 1 == 1 && g.jMax - 2 == 0;
    assert |z| == 1;
    assert NodeC(g, m, k, g.jMax - 1) == NodeC(g, m, k, 1);
    assert z[0] == z[g.jMax - 2];
    var w := upper * NodeC(g, m, k, 1);
    assert z[0] == w;
    assert z == [w];
  }

  /** One implicit step: the interior of row is what the solver returns for
      the system matrix and the interior of the next row minus the
      correction built from row's own boundary cells. */
  ghost predicate StepHolds(g: Grid, m: BlackScholesModel, k: real, solve: Solver, row: seq<real>, next: seq<real>)
    requires g.jMax >= 2 && PriceStep(g) != 0.0 && g.jMax < |row| && g.jMax < |next|
  {
    Interior(row, g.jMax)
      == solve(SystemMatrix(g, m, k), Sub(Interior(next, g.jMax), Correction(g, m, k, row[0], row[g.jMax])))
  }

  /** Rows from..iMax-1 each hold one implicit step against the next row. */
  ghost predicate Steps(W: Surface, g: Grid, m: BlackScholesModel, k: real, solve: Solver, from: int)
    requires g.jMax >= 2 && PriceStep(g) != 0.0 && Fits(W, g)
  {
    forall i {:trigger StepHolds(g, m, k, solve, W[i], W[i + 1])} | 0 <= from <= i < g.iMax ::
      StepHolds(g, m, k, solve, W[i], W[i + 1])
  }

  /** Writing a row that solves the step against row i extends Steps from
      rows i.. to rows i-1.. */
  lemma ExtendSteps(W: Surface, i: int, row: seq<real>, g: Grid, m: BlackScholesModel, k: real, solve: Solver)
    requires g.jMax >= 2 && PriceStep(g) != 0.0 && Fits(W, g)
    requires 0 < i <= g.iMax && |row| == |W[i - 1]|
    requires Steps(W, g, m, k, solve, i)
    requires StepHolds(g, m, k, solve, row, W[i])
    ensures Fits(W[i - 1 := row], g) && Steps(W[i - 1 := row], g, m, k, solve, i - 1)
  {
    var W' := W[i - 1 := row];
    assert W'[i - 1] == row && W'[i] == W[i];
    forall r | i <= r < g.iMax
      ensures StepHolds(g, m, k, solve, W'[r], W'[r + 1])
    {
      assert W'[r] == W[r] && W'[r + 1] == W[r + 1];
    }
  }

  /** Solves the Black-Scholes equation backwards in time: the terminal row,
      the system matrix once, then for each earlier row its two boundary
      cells and the solution of the tridiagonal system for its interior.
      The library's LU solve is the parameter solve. */
  method Solve(V: Surface, o: EuropeanOption, m: BlackScholesModel, g: Grid, c: Conditions, solve: Solver)
    returns (res: Result<Surface, SolveError>)
    requires Fits(V, g) && (g.iMax >= 1 && g.jMax >= 2 ==> PriceStep(g) != 0.0)
    ensures res.Failure? <==> g.jMax < 2
    ensures res.Success? ==> SameShape(V, res.value) && Fits(res.value, g)
    ensures res.Success? ==> OutsideUnchanged(V, res.value, g)
    ensures res.Success? ==> TerminalRow(res.value, g, c)
    ensures res.Success? && g.iMax >= 1 ==> BoundaryColumns(res.value, g, c, TimeStep(g, o.T), 0)
    ensures res.Success? && g.iMax >= 1 ==> Steps(res.value, g, m, TimeStep(g, o.T), solve, 0)
  {
    if g.jMax < 2 {
      return Failure(NoInteriorNodes);
    }

    // Terminal condition
    var W := SetTerminal(V, g, c);
    if g.iMax == 0 {
      // No time step: the backward loop has no row to write.
      return Success(W);
    }
    var k := TimeStep(g, o.T);

    var M := MatrixA(g, m, k);

    var i := g.iMax;
    while i > 0
      invariant 0 <= i <= g.iMax
      invariant SameShape(V, W) && Fits(W, g)
      invariant OutsideUnchanged(V, W, g)
      invariant TerminalRow(W, g, c)
      invariant BoundaryColumns(W, g, c, k, i)
      invariant Steps(W, g, m, k, solve, i)
    {
      // Boundary conditions
      var lower := c.lower(k * (i - 1) as real);
      var upper := c.upper(k * (i - 1) as real);
      var row := W[i - 1][0 := lower][g.jMax := upper];

      var z := Correction(g, m, k, lower, upper);
      var y := Interior(W[i], g.jMax);

      // Solve tridiagonal system
      var x := solve(M, Sub(y, z));
      row := WriteInterior(row, x, g.jMax);

      assert row[g.jMax + 1..] == W[i - 1][g.jMax + 1..] by {
        assert row[g.jMax..] == W[i - 1][0 := lower][g.jMax := upper][g.jMax..];
      }
      ReplaceRow(W, i, row, V, g, c, k);
      ExtendSteps(W, i, row, g, m, k, solve);
      W := W[i - 1 := row];
      i := i - 1;
    }
    return Success(W);
  }

  /** The correction is the end terms the system matrix leaves out: the
      source's two writes give the generic end correction of its diagonals. */
  lemma CorrectionIsEndCorrection(g: Grid, m: BlackScholesModel, k: real, lower: real, upper: real)
    requires g.jMax >= 2 && PriceStep(g) != 0.0
    ensures Correction(g, m, k, lower, upper) == EndCorrection(SubDiagonal(g, m, k), SuperDiagonal(g, m, k), lower, upper)
  {
    var n := g.jMax - 1;
    var z := Correction(g, m, k, lower, upper);
    assert SubDiagonal(g, m, k)[0] == NodeA(g, m, k, 1);
    assert SuperDiagonal(g, m, k)[n - 1] == NodeC(g, m, k, n - 1 + 1);
    assert n - 1 + 1 == g.jMax - 1 && n - 1 == g.jMax - 2;
    MulComm(lower, NodeA(g, m, k, 1));
    MulComm(upper, NodeC(g, m, k, g.jMax - 1));
    EndCorrectionEntries(z, SubDiagonal(g, m, k), SuperDiagonal(g, m, k), lower, upper);
  }

  /** A row holding the implicit step is an implicit step of the generic
      tridiagonal theory over the system's diagonals. */
  lemma StepIsImplicitStep(g: Grid, m: BlackScholesModel, k: real, solve: Solver, row: seq<real>, next: seq<real>)
    requires g.jMax >= 2 && PriceStep(g) != 0.0 && g.jMax < |row| && g.jMax < |next|
    requires StepHolds(g, m, k, solve, row, next)
    ensures ImplicitStep(solve, SubDiagonal(g, m, k), MainDiagonal(g, m, k), SuperDiagonal(g, m, k), row, next, g.jMax)
  {
    CorrectionIsEndCorrection(g, m, k, row[0], row[g.jMax]);
  }

  /** Row j-1 of the system holds the weights of price node j. */
  lemma DiagonalsAtNode(g: Grid, m: BlackScholesModel, k: real, j: int)
    requires g.jMax >= 2 && PriceStep(g) != 0.0 && 0 < j < g.jMax
    ensures SubDiagonal(g, m, k)[j - 1] == NodeA(g, m, k, j)
    ensures MainDiagonal(g, m, k)[j - 1] == NodeB(g, m, k, j)
    ensures SuperDiagonal(g, m, k)[j - 1] == NodeC(g, m, k, j)
  {
    assert j - 1 + 1 == j;
  }

  /** With an exact solver and at least two interior nodes, a row holding
      the step satisfies the implicit difference equation at every interior
      node j: the weights of node j applied to the row give the next row's
      value at j. */
  lemma RowScheme(g: Grid, m: BlackScholesModel, k: real, solve: Solver, row: seq<real>, next: seq<real>, j: int)
    requires g.jMax >= 3 && PriceStep(g) != 0.0 && g.jMax < |row| && g.jMax < |next| && 0 < j < g.jMax
    requires StepHolds(g, m, k, solve, row, next)
    requires SolvesExactly(solve, SystemMatrix(g, m, k))
    ensures NodeA(g, m, k, j) * row[j - 1] + NodeB(g, m, k, j) * row[j] + NodeC(g, m, k, j) * row[j + 1] == next[j]
  {
    StepIsImplicitStep(g, m, k, solve, row, next);
    ImplicitStepNode(solve, SubDiagonal(g, m, k), MainDiagonal(g, m, k), SuperDiagonal(g, m, k), row, next, g.jMax, j);
    DiagonalsAtNode(g, m, k, j);
    SameWeights(NodeA(g, m, k, j), NodeB(g, m, k, j), NodeC(g, m, k, j),
                SubDiagonal(g, m, k)[j - 1], MainDiagonal(g, m, k)[j - 1], SuperDiagonal(g, m, k)[j - 1],
                row[j - 1], row[j], row[j + 1], next[j]);
  }

  /** With an exact solver, every interior node j of a solved row satisfies
      the implicit difference equation when there are at least two interior
      nodes: the weighted values of row i around j, boundary cells included,
      give the value of row i+1 at j. */
  lemma SolvedRowsSatisfyScheme(W: Surface, g: Grid, m: BlackScholesModel, k: real, solve: Solver, i: int, j: int)
    requires g.jMax >= 3 && PriceStep(g) != 0.0 && Fits(W, g)
    requires Steps(W, g, m, k, solve, 0)
    requires SolvesExactly(solve, SystemMatrix(g, m, k))
    requires 0 <= i < g.iMax && 0 < j < g.jMax
    ensures NodeA(g, m, k, j) * W[i][j - 1] + NodeB(g, m, k, j) * W[i][j] + NodeC(g, m, k, j) * W[i][j + 1]
      == W[i + 1][j]
  {
    RowScheme(g, m, k, solve, W[i], W[i + 1], j);
  }

  /** With a single interior node, a row holding the step against an exact
      solver leaves out the lower boundary: the node's own weight and the
      upper boundary's give the next row's value. */
  lemma SingleNodeRow(g: Grid, m: BlackScholesModel, k: real, solve: Solver, row: seq<real>, next: seq<real>)
    requires g.jMax == 2 && PriceStep(g) != 0.0 && g.jMax < |row| && g.jMax < |next|
    requires StepHolds(g, m, k, solve, row, next)
    requires SolvesExactly(solve, SystemMatrix(g, m, k))
    ensures NodeB(g, m, k, 1) * row[1] + NodeC(g, m, k, 1) * row[2] == next[1]
  {
    StepIsImplicitStep(g, m, k, solve, row, next);
    ImplicitStepSingle(solve, SubDiagonal(g, m, k), MainDiagonal(g, m, k), SuperDiagonal(g, m, k), row, next);
    DiagonalsAtNode(g, m, k, 1);
    SameWeightsSingle(NodeB(g, m, k, 1), NodeC(g, m, k, 1), MainDiagonal(g, m, k)[0], SuperDiagonal(g, m, k)[0],
                      row[1], row[2], next[1]);
  }

  /** With a single interior node an exact solver leaves out the lower
      boundary: the node's own weight and the upper boundary's give the
      value of row i+1. */
  lemma SingleNodeScheme(W: Surface, g: Grid, m: BlackScholesModel, k: real, solve: Solver, i: int)
    requires g.jMax == 2 && PriceStep(g) != 0.0 && Fits(W, g)
    requires Steps(W, g, m, k, solve, 0)
    requires SolvesExactly(solve, SystemMatrix(g, m, k))
    requires 0 <= i < g.iMax
    ensures NodeB(g, m, k, 1) * W[i][1] + NodeC(g, m, k, 1) * W[i][2] == W[i + 1][1]
  {
    SingleNodeRow(g, m, k, solve, W[i], W[i + 1]);
  }
}
