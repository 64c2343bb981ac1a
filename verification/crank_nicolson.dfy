/** The Crank-Nicolson scheme: each earlier time row solves a tridiagonal
    system B x = A y + z, where y is the interior of the later row and the
    matrices A and B are the same at every step. */
module CrankNicolson {
  import opened Wrappers
  import opened Discretization
  import opened Market
  import opened Options
  import opened Surfaces
  import opened LinearAlgebra
  import opened RealArith
  import ExplicitMethod
  import ImplicitMethod

  /** Coefficient of V(i, j-1). */
  function A(s: real, h: real, k: real, r: real, vol: real): real
    requires h != 0.0
  {
    (0.25 * k / h) * ((vol * s) * (vol * s) / h - r * s)
  }

  /** Coefficient of V(i, j). */
  function B(s: real, h: real, k: real, r: real, vol: real): real
    requires h != 0.0
  {
    1.0 - 0.5 * k * ((vol * s / h) * (vol * s / h) + r)
  }

  /** Coefficient of V(i, j+1). */
  function C(s: real, h: real, k: real, r: real, vol: real): real
    requires h != 0.0
  {
    (0.25 * k / h) * ((vol * s) * (vol * s) / h + r * s)
  }

  /** Coefficient of V(i-1, j-1). */
  function D(s: real, h: real, k: real, r: real, vol: real): real
    requires h != 0.0
  {
    -1.0 * A(s, h, k, r, vol)
  }

  /** Coefficient of V(i-1, j). */
  function E(s: real, h: real, k: real, r: real, vol: real): real
    requires h != 0.0
  {
    2.0 - B(s, h, k, r, vol)
  }

  /** Coefficient of V(i-1, j+1). */
  function F(s: real, h: real, k: real, r: real, vol: real): real
    requires h != 0.0
  {
    -1.0 * C(s, h, k, r, vol)
  }

  /** The later-row weights are the explicit scheme's weights for half the
      time step. */
  lemma LaterWeightsAreHalfExplicit(s: real, h: real, k: real, r: real, vol: real)
    requires h != 0.0
    ensures A(s, h, k, r, vol) == ExplicitMethod.A(s, h, k / 2.0, r, vol)
    ensures B(s, h, k, r, vol) == ExplicitMethod.B(s, h, k / 2.0, r, vol)
    ensures C(s, h, k, r, vol) == ExplicitMethod.C(s, h, k / 2.0, r, vol)
  {
  }

  /** The earlier-row weights are the implicit scheme's weights for half
      the time step. */
  lemma EarlierWeightsAreHalfImplicit(s: real, h: real, k: real, r: real, vol: real)
    requires h != 0.0
    ensures D(s, h, k, r, vol) == ImplicitMethod.A(s, h, k / 2.0, r, vol)
    ensures E(s, h, k, r, vol) == ImplicitMethod.B(s, h, k / 2.0, r, vol)
    ensures F(s, h, k, r, vol) == ImplicitMethod.C(s, h, k / 2.0, r, vol)
  {
  }

  /** The later-row weights add up to 1 - k r / 2 at every asset price. */
  lemma CoefficientSum(s: real, h: real, k: real, r: real, vol: real)
    requires h != 0.0
    ensures A(s, h, k, r, vol) + B(s, h, k, r, vol) + C(s, h, k, r, vol) == 1.0 - k * r / 2.0
  {
    LaterWeightsAreHalfExplicit(s, h, k, r, vol);
    ExplicitMethod.CoefficientSum(s, h, k / 2.0, r, vol);
  }

  /** The earlier-row weights add up to 1 + k r / 2 at every asset price. */
  lemma EarlierCoefficientSum(s: real, h: real, k: real, r: real, vol: real)
    requires h != 0.0
    ensures D(s, h, k, r, vol) + E(s, h, k, r, vol) + F(s, h, k, r, vol) == 1.0 + k * r / 2.0
  {
    CoefficientSum(s, h, k, r, vol);
  }

  /** The six weights of price node j for time step k. */
  function NodeA(g: Grid, m: BlackScholesModel, k: real, j: int): real
    requires g.jMax != 0 && PriceStep(g) != 0.0
  {
    A(AssetPrice(g, j), PriceStep(g), k, m.r, m.volatility)
  }

  function NodeB(g: Grid, m: BlackScholesModel, k: real, j: int): real
    requires g.jMax != 0 && PriceStep(g) != 0.0
  {
    B(AssetPrice(g, j), PriceStep(g), k, m.r, m.volatility)
  }

  function NodeC(g: Grid, m: BlackScholesModel, k: real, j: int): real
    requires g.jMax != 0 && PriceStep(g) != 0.0
  {
    C(AssetPrice(g, j), PriceStep(g), k, m.r, m.volatility)
  }

  function NodeD(g: Grid, m: BlackScholesModel, k: real, j: int): real
    requires g.jMax != 0 && PriceStep(g) != 0.0
  {
    D(AssetPrice(g, j), PriceStep(g), k, m.r, m.volatility)
  }

  function NodeE(g: Grid, m: BlackScholesModel, k: real, j: int): real
    requires g.jMax != 0 && PriceStep(g) != 0.0
  {
    E(AssetPrice(g, j), PriceStep(g), k, m.r, m.volatility)
  }

  function NodeF(g: Grid, m: BlackScholesModel, k: real, j: int): real
    requires g.jMax != 0 && PriceStep(g) != 0.0
  {
    F(AssetPrice(g, j), PriceStep(g), k, m.r, m.volatility)
  }

  /** The diagonals of the matrix A, which multiplies the later row: row r
      holds the weights a, b, c of price node r+1. */
  function LaterSub(g: Grid, m: BlackScholesModel, k: real): (v: Vector)
    requires g.jMax >= 2 && PriceStep(g) != 0.0
    ensures |v| == g.jMax - 1
  {
    seq(g.jMax - 1, r requires 0 <= r < g.jMax - 1 => NodeA(g, m, k, r + 1))
  }

  function LaterDiag(g: Grid, m: BlackScholesModel, k: real): (v: Vector)
    requires g.jMax >= 2 && PriceStep(g) != 0.0
    ensures |v| == g.jMax - 1
  {
    seq(g.jMax - 1, r requires 0 <= r < g.jMax - 1 => NodeB(g, m, k, r + 1))
  }

  function LaterSup(g: Grid, m: BlackScholesModel, k: real): (v: Vector)
    requires g.jMax >= 2 && PriceStep(g) != 0.0
    ensures |v| == g.jMax - 1
  {
    seq(g.jMax - 1, r requires 0 <= r < g.jMax - 1 => NodeC(g, m, k, r + 1))
  }

  /** The diagonals of the matrix B, the one solved for the earlier row:
      row r holds the weights d, e, f of price node r+1. */
  function EarlierSub(g: Grid, m: BlackScholesModel, k: real): (v: Vector)
    requires g.jMax >= 2 && PriceStep(g) != 0.0
    ensures |v| == g.jMax - 1
  {
    seq(g.jMax - 1, r requires 0 <= r < g.jMax - 1 => NodeD(g, m, k, r + 1))
  }

  function EarlierDiag(g: Grid, m: BlackScholesModel, k: real): (v: Vector)
    requires g.jMax >= 2 && PriceStep(g) != 0.0
    ensures |v| == g.jMax - 1
  {
    seq(g.jMax - 1, r requires 0 <= r < g.jMax - 1 => NodeE(g, m, k, r + 1))
  }

  function EarlierSup(g: Grid, m: BlackScholesModel, k: real): (v: Vector)
    requires g.jMax >= 2 && PriceStep(g) != 0.0
    ensures |v| == g.jMax - 1
  {
    seq(g.jMax - 1, r requires 0 <= r < g.jMax - 1 => NodeF(g, m, k, r + 1))
  }

  function LaterMatrix(g: Grid, m: BlackScholesModel, k: real): Matrix
    requires g.jMax >= 2 && PriceStep(g) != 0.0
  {
    Tridiagonal(LaterSub(g, m, k), LaterDiag(g, m, k), LaterSup(g, m, k))
  }

  function EarlierMatrix(g: Grid, m: BlackScholesModel, k: real): Matrix
    requires g.jMax >= 2 && PriceStep(g) != 0.0
  {
    Tridiagonal(EarlierSub(g, m, k), EarlierDiag(g, m, k), EarlierSup(g, m, k))
  }

  /** Builds the two matrices of the step, both of order jMax-1: the first
      (A, from a, b, c) multiplies the later row, the second (B, from d, e,
      f) is the one solved. Row r holds the weights of price node r+1 around
      the diagonal and 0 elsewhere. */
  method MatricesAandB(g: Grid, m: BlackScholesModel, k: real) returns (MA: Matrix, MB: Matrix)
    requires g.jMax >= 2 && PriceStep(g) != 0.0
    ensures MA == LaterMatrix(g, m, k) && MB == EarlierMatrix(g, m, k)
    ensures IsSquare(MA, g.jMax - 1) && IsSquare(MB, g.jMax - 1)
    ensures forall r, c | 0 <= r < g.jMax - 1 && 0 <= c < g.jMax - 1 ::
      MA[r][c] == if c == r then NodeB(g, m, k, r + 1)
                  else if c + 1 == r then NodeA(g, m, k, r + 1)
                  else if c == r + 1 then NodeC(g, m, k, r + 1)
                  else 0.0
    ensures forall r, c | 0 <= r < g.jMax - 1 && 0 <= c < g.jMax - 1 ::
      MB[r][c] == if c == r then NodeE(g, m, k, r + 1)
                  else if c + 1 == r then NodeD(g, m, k, r + 1)
                  else if c == r + 1 then NodeF(g, m, k, r + 1)
                  else 0.0
  {
    MA := BuildTridiagonal(LaterSub(g, m, k), LaterDiag(g, m, k), LaterSup(g, m, k));
    MB := BuildTridiagonal(EarlierSub(g, m, k), EarlierDiag(g, m, k), EarlierSup(g, m, k));
  }

  /** The weights of one node under the two matrices cancel off the
      diagonal and add up to 2 on it. */
  lemma NodeWeightsComplement(g: Grid, m: BlackScholesModel, k: real, j: int)
    requires g.jMax != 0 && PriceStep(g) != 0.0
    ensures NodeA(g, m, k, j) + NodeD(g, m, k, j) == 0.0
    ensures NodeB(g, m, k, j) + NodeE(g, m, k, j) == 2.0
    ensures NodeC(g, m, k, j) + NodeF(g, m, k, j) == 0.0
  {}

  /** The two matrices add up to twice the identity. */
  lemma MatricesSumToTwiceIdentity(g: Grid, m: BlackScholesModel, k: real)
    requires g.jMax >= 2 && PriceStep(g) != 0.0
    ensures forall r, c | 0 <= r < g.jMax - 1 && 0 <= c < g.jMax - 1 ::
      LaterMatrix(g, m, k)[r][c] + EarlierMatrix(g, m, k)[r][c] == if r == c then 2.0 else 0.0
  {
    forall r | 0 <= r < g.jMax - 1
      ensures LaterSub(g, m, k)[r] + EarlierSub(g, m, k)[r] == 0.0
      ensures LaterDiag(g, m, k)[r] + EarlierDiag(g, m, k)[r] == 2.0
      ensures LaterSup(g, m, k)[r] + EarlierSup(g, m, k)[r] == 0.0
    {
      NodeWeightsComplement(g, m, k, r + 1);
    }
    TridiagonalSumTwiceIdentity(LaterSub(g, m, k), LaterDiag(g, m, k), LaterSup(g, m, k),
                                EarlierSub(g, m, k), EarlierDiag(g, m, k), EarlierSup(g, m, k));
  }

  /** The correction vector z: zero but for the first and last entries,
      each the later row's boundary cell under a (resp. c) less the earlier
      row's boundary value under d (resp. f), written in that order, so that
      with a single interior node the second write replaces the first. */
  function Correction(g: Grid, m: BlackScholesModel, k: real, laterLo: real, laterHi: real, lower: real, upper: real): (z: Vector)
    requires g.jMax >= 2 && PriceStep(g) != 0.0
    ensures |z| == g.jMax - 1
  {
    var z := seq(g.jMax - 1, _ => 0.0);
    var z := z[0 := laterLo * NodeA(g, m, k, 1) - lower * NodeD(g, m, k, 1)];
    z[g.jMax - 2 := laterHi * NodeC(g, m, k, g.jMax - 1) - upper * NodeF(g, m, k, g.jMax - 1)]
  }

  /** The correction is what the two banded matrices leave out at the ends:
      the later row's end terms under A less the earlier row's under B. */
  lemma CorrectionIsEndCorrections(g: Grid, m: BlackScholesModel, k: real, laterLo: real, laterHi: real, lower: real, upper: real)
    requires g.jMax >= 2 && PriceStep(g) != 0.0
    ensures Correction(g, m, k, laterLo, laterHi, lower, upper)
      == Sub(EndCorrection(LaterSub(g, m, k), LaterSup(g, m, k), laterLo, laterHi),
             EndCorrection(EarlierSub(g, m, k), EarlierSup(g, m, k), lower, upper))
  {
    var n := g.jMax - 1;
    var z := Correction(g, m, k, laterLo, laterHi, lower, upper);
    assert n - 1 + 1 == g.jMax - 1 && n - 1 == g.jMax - 2;
    assert LaterSub(g, m, k)[0] == NodeA(g, m, k, 1);
    assert EarlierSub(g, m, k)[0] == NodeD(g, m, k, 1);
    assert LaterSup(g, m, k)[n - 1] == NodeC(g, m, k, n - 1 + 1);
    assert EarlierSup(g, m, k)[n - 1] == NodeF(g, m, k, n - 1 + 1);
    MulComm(laterLo, NodeA(g, m, k, 1));
    MulComm(lower, NodeD(g, m, k, 1));
    MulComm(laterHi, NodeC(g, m, k, g.jMax - 1));
    MulComm(upper, NodeF(g, m, k, g.jMax - 1));
    assert z[n - 1] == laterHi * NodeC(g, m, k, g.jMax - 1) - upper * NodeF(g, m, k, g.jMax - 1);
    assert n > 1 ==> z[0] == laterLo * NodeA(g, m, k, 1) - lower * NodeD(g, m, k, 1);
    EndCorrectionsEntries(z, LaterSub(g, m, k), LaterSup(g, m, k), EarlierSub(g, m, k), EarlierSup(g, m, k),
                          laterLo, laterHi, lower, upper);
  }

  /** With a single interior node both lower boundary terms are lost: z
      holds the upper boundary's terms alone. */
  lemma SingleNodeDropsLowerBoundary(g: Grid, m: BlackScholesModel, k: real, laterLo: real, laterHi: real, lower: real, upper: real)
    requires g.jMax == 2 && PriceStep(g) != 0.0
    ensures Correction(g, m, k, laterLo, laterHi, lower, upper)
      == [laterHi * NodeC(g, m, k, 1) - upper * NodeF(g, m, k, 1)]
  {
    var z := Correction(g, m, k, laterLo, laterHi, lower, upper);
    assert g.jMax - 1 == 1 && g.jMax - 2 == 0;
    assert |z| == 1;
    assert NodeC(g, m, k, g.jMax - 1) == NodeC(g, m, k, 1);
    assert NodeF(g, m, k, g.jMax - 1) == NodeF(g, m, k, 1);
    assert z[0] == z[g.jMax - 2];
    var w := laterHi * NodeC(g, m, k, 1) - upper * NodeF(g, m, k, 1);
    assert z[0] == w;
    assert z == [w];
  }

  /** One Crank-Nicolson step: the interior of row is what the solver
      returns for B and A times the interior of the later row next, plus the
      correction built from both rows' boundary cells. */
  ghost predicate StepHolds(g: Grid, m: BlackScholesModel, k: real, solve: Solver, row: seq<real>, next: seq<real>)
    requires g.jMax >= 2 && PriceStep(g) != 0.0 && g.jMax < |row| && g.jMax < |next|
  {
    Interior(row, g.jMax)
      == solve(EarlierMatrix(g, m, k),
               Add(MatVec(LaterMatrix(g, m, k), Interior(next, g.jMax)),
                   Correction(g, m, k, next[0], next[g.jMax], row[0], row[g.jMax])))
  }

  /** Rows from..iMax-1 each hold one step against the next row. */
  ghost predicate Steps(W: Surface, g: Grid, m: BlackScholesModel, k: real, solve: Solver, from: int)
    requires g.jMax >= 2 && PriceStep(g) != 0.0 && Fits(W, g)
  {
    forall i {:trigger StepHolds(g, m, k, solve, W[i], W[i + 1])} | 0 <= from <= i < g.iMax ::
      StepHolds(g, m, k, solve, W[i], W[i + 1])
  }

  /** Writing a row that solves the step against row i extends Steps from
      rows i.. to rows i-1.. */
  lemma ExtendSteps(W: Surface, i: int, row: seq<real>, g: Grid, m: BlackScholesModel, k: real, solve: Solver)
    requires g.jMax >= 2 && PriceStep(g) != 0.0 && Fits(W, g)
    requires 0 < i <= g.iMax && |row| == |W[i - 1]|
    requires Steps(W, g, m, k, solve, i)
    requires StepHolds(g, m, k, solve, row, W[i])
    ensures Fits(W[i - 1 := row], g) && Steps(W[i - 1 := row], g, m, k, solve, i - 1)
  {
    var W' := W[i - 1 := row];
    assert W'[i - 1] == row && W'[i] == W[i];
    forall r | i <= r < g.iMax
      ensures StepHolds(g, m, k, solve, W'[r], W'[r + 1])
    {
      assert W'[r] == W[r] && W'[r + 1] == W[r + 1];
    }
  }

  /** Solves the Black-Scholes equation backwards in time: the terminal row,
      the two matrices once, then for each earlier row its two boundary
      cells and the solution of B x = A y + z for its interior. The
      library's LU solve is the parameter solve. */
  method Solve(V: Surface, o: EuropeanOption, m: BlackScholesModel, g: Grid, c: Conditions, solve: Solver)
    returns (res: Result<Surface, SolveError>)
    requires Fits(V, g) && (g.iMax >= 1 && g.jMax >= 2 ==> PriceStep(g) != 0.0)
    ensures res.Failure? <==> g.jMax < 2
    ensures res.Success? ==> SameShape(V, res.value) && Fits(res.value, g)
    ensures res.Success? ==> OutsideUnchanged(V, res.value, g)
    ensures res.Success? ==> TerminalRow(res.value, g, c)
    ensures res.Success? && g.iMax >= 1 ==> BoundaryColumns(res.value, g, c, TimeStep(g, o.T), 0)
    ensures res.Success? && g.iMax >= 1 ==> Steps(res.value, g, m, TimeStep(g, o.T), solve, 0)
  {
    if g.jMax < 2 {
      return Failure(NoInteriorNodes);
    }

    // Terminal condition
    var W := SetTerminal(V, g, c);
    if g.iMax == 0 {
      // No time step: the backward loop has no row to write.
      return Success(W);
    }
    var k := TimeStep(g, o.T);

    var MA, MB := MatricesAandB(g, m, k);

    var i := g.iMax;
    while i > 0
      invariant 0 <= i <= g.iMax
      invariant SameShape(V, W) && Fits(W, g)
      invariant OutsideUnchanged(V, W, g)
      invariant TerminalRow(W, g, c)
      invariant BoundaryColumns(W, g, c, k, i)
      invariant Steps(W, g, m, k, solve, i)
    {
      // Boundary conditions
      var lower := c.lower(k * (i - 1) as real);
      var upper := c.upper(k * (i - 1) as real);
      var row := W[i - 1][0 := lower][g.jMax := upper];

      var z := Correction(g, m, k, W[i][0], W[i][g.jMax], lower, upper);
      var y := Interior(W[i], g.jMax);

      // Solve tridiagonal system
      var x := solve(MB, Add(MatVec(MA, y), z));
      row := WriteInterior(row, x, g.jMax);

      assert row[g.jMax + 1..] == W[i - 1][g.jMax + 1..] by {
        assert row[g.jMax..] == W[i - 1][0 := lower][g.jMax := upper][g.jMax..];
      }
      ReplaceRow(W, i, row, V, g, c, k);
      ExtendSteps(W, i, row, g, m, k, solve);
      W := W[i - 1 := row];
      i := i - 1;
    }
    return Success(W);
  }

  /** A row holding the step is a balanced step of the generic tridiagonal
      theory, with A's diagonals on the later row and B's on the earlier. */
  lemma StepIsBalancedStep(g: Grid, m: BlackScholesModel, k: real, solve: Solver, row: seq<real>, next: seq<real>)
    requires g.jMax >= 2 && PriceStep(g) != 0.0 && g.jMax < |row| && g.jMax < |next|
    requires StepHolds(g, m, k, solve, row, next)
    ensures BalancedStep(solve, LaterSub(g, m, k), LaterDiag(g, m, k), LaterSup(g, m, k),
                         EarlierSub(g, m, k), EarlierDiag(g, m, k), EarlierSup(g, m, k), row, next, g.jMax)
  {
    CorrectionIsEndCorrections(g, m, k, next[0], next[g.jMax], row[0], row[g.jMax]);
  }

  /** Row j-1 of each matrix holds the weights of price node j. */
  lemma DiagonalsAtNode(g: Grid, m: BlackScholesModel, k: real, j: int)
    requires g.jMax >= 2 && PriceStep(g) != 0.0 && 0 < j < g.jMax
    ensures LaterSub(g, m, k)[j - 1] == NodeA(g, m, k, j)
    ensures LaterDiag(g, m, k)[j - 1] == NodeB(g, m, k, j)
    ensures LaterSup(g, m, k)[j - 1] == NodeC(g, m, k, j)
    ensures EarlierSub(g, m, k)[j - 1] == NodeD(g, m, k, j)
    ensures EarlierDiag(g, m, k)[j - 1] == NodeE(g, m, k, j)
    ensures EarlierSup(g, m, k)[j - 1] == NodeF(g, m, k, j)
  {
    assert j - 1 + 1 == j;
  }

  /** With an exact solver and at least two interior nodes, a row holding
      the step balances the later row at every interior node j: d, e, f of
      node j applied to the earlier row equal a, b, c applied to the later. */
  lemma RowScheme(g: Grid, m: BlackScholesModel, k: real, solve: Solver, row: seq<real>, next: seq<real>, j: int)
    requires g.jMax >= 3 && PriceStep(g) != 0.0 && g.jMax < |row| && g.jMax < |next| && 0 < j < g.jMax
    requires StepHolds(g, m, k, solve, row, next)
    requires SolvesExactly(solve, EarlierMatrix(g, m, k))
    ensures NodeD(g, m, k, j) * row[j - 1] + NodeE(g, m, k, j) * row[j] + NodeF(g, m, k, j) * row[j + 1]
      == NodeA(g, m, k, j) * next[j - 1] + NodeB(g, m, k, j) * next[j] + NodeC(g, m, k, j) * next[j + 1]
  {
    StepIsBalancedStep(g, m, k, solve, row, next);
    BalancedAtNode(g, m, k, solve, row, next, j);
  }

  /** The node equation of RowScheme, from the generic balanced step. */
  lemma BalancedAtNode(g: Grid, m: BlackScholesModel, k: real, solve: Solver, row: seq<real>, next: seq<real>, j: int)
    requires g.jMax >= 3 && PriceStep(g) != 0.0 && g.jMax < |row| && g.jMax < |next| && 0 < j < g.jMax
    requires BalancedStep(solve, LaterSub(g, m, k), LaterDiag(g, m, k), LaterSup(g, m, k),
                          EarlierSub(g, m, k), EarlierDiag(g, m, k), EarlierSup(g, m, k), row, next, g.jMax)
    requires SolvesExactly(solve, EarlierMatrix(g, m, k))
    ensures NodeD(g, m, k, j) * row[j - 1] + NodeE(g, m, k, j) * row[j] + NodeF(g, m, k, j) * row[j + 1]
      == NodeA(g, m, k, j) * next[j - 1] + NodeB(g, m, k, j) * next[j] + NodeC(g, m, k, j) * next[j + 1]
  {
    DiagonalsAtNode(g, m, k, j);
    BalancedStepNode(solve, LaterSub(g, m, k), LaterDiag(g, m, k), LaterSup(g, m, k),
                     EarlierSub(g, m, k), EarlierDiag(g, m, k), EarlierSup(g, m, k), row, next, g.jMax, j,
                     NodeA(g, m, k, j), NodeB(g, m, k, j), NodeC(g, m, k, j),
                     NodeD(g, m, k, j), NodeE(g, m, k, j), NodeF(g, m, k, j));
  }

  /** With an exact solver and at least two interior nodes, every interior
      node j of a solved surface balances row i against row i+1. */
  lemma SolvedRowsSatisfyScheme(W: Surface, g: Grid, m: BlackScholesModel, k: real, solve: Solver, i: int, j: int)
    requires g.jMax >= 3 && PriceStep(g) != 0.0 && Fits(W, g)
    requires Steps(W, g, m, k, solve, 0)
    requires SolvesExactly(solve, EarlierMatrix(g, m, k))
    requires 0 <= i < g.iMax && 0 < j < g.jMax
    ensures NodeD(g, m, k, j) * W[i][j - 1] + NodeE(g, m, k, j) * W[i][j] + NodeF(g, m, k, j) * W[i][j + 1]
      == NodeA(g, m, k, j) * W[i + 1][j - 1] + NodeB(g, m, k, j) * W[i + 1][j] + NodeC(g, m, k, j) * W[i + 1][j + 1]
  {
    RowScheme(g, m, k, solve, W[i], W[i + 1], j);
  }

  /** With a single interior node an exact step balances the two rows
      without either lower boundary cell. */
  lemma SingleNodeRow(g: Grid, m: BlackScholesModel, k: real, solve: Solver, row: seq<real>, next: seq<real>)
    requires g.jMax == 2 && PriceStep(g) != 0.0 && g.jMax < |row| && g.jMax < |next|
    requires StepHolds(g, m, k, solve, row, next)
    requires SolvesExactly(solve, EarlierMatrix(g, m, k))
    ensures NodeE(g, m, k, 1) * row[1] + NodeF(g, m, k, 1) * row[2]
      == NodeB(g, m, k, 1) * next[1] + NodeC(g, m, k, 1) * next[2]
  {
    StepIsBalancedStep(g, m, k, solve, row, next);
    DiagonalsAtNode(g, m, k, 1);
    BalancedStepSingle(solve, LaterSub(g, m, k), LaterDiag(g, m, k), LaterSup(g, m, k),
                       EarlierSub(g, m, k), EarlierDiag(g, m, k), EarlierSup(g, m, k), row, next,
                       NodeB(g, m, k, 1), NodeC(g, m, k, 1), NodeE(g, m, k, 1), NodeF(g, m, k, 1));
  }

  /** With a single interior node, every step of a solved surface balances
      row i against row i+1 without the lower boundary column. */
  lemma SingleNodeScheme(W: Surface, g: Grid, m: BlackScholesModel, k: real, solve: Solver, i: int)
    requires g.jMax == 2 && PriceStep(g) != 0.0 && Fits(W, g)
    requires Steps(W, g, m, k, solve, 0)
    requires SolvesExactly(solve, EarlierMatrix(g, m, k))
    requires 0 <= i < g.iMax
    ensures NodeE(g, m, k, 1) * W[i][1] + NodeF(g, m, k, 1) * W[i][2]
      == NodeB(g, m, k, 1) * W[i + 1][1] + NodeC(g, m, k, 1) * W[i + 1][2]
  {
    SingleNodeRow(g, m, k, solve, W[i], W[i + 1]);
  }
}
