/** Dense vectors and matrices over the reals, the banded (tridiagonal)
    matrices the implicit-family schemes build, and the linear solve they
    delegate to a numerical library. */
module LinearAlgebra {

  type Vector = seq<real>
  type Matrix = seq<seq<real>>

  predicate IsSquare(M: Matrix, n: nat) {
    |M| == n && forall r | 0 <= r < n :: |M[r]| == n
  }

  function Dot(u: Vector, v: Vector): real
    requires |u| == |v|
    decreases |u|
  {
    if |u| == 0 then 0.0 else u[0] * v[0] + Dot(u[1..], v[1..])
  }

  function MatVec(M: Matrix, x: Vector): (y: Vector)
    requires forall r | 0 <= r < |M| :: |M[r]| == |x|
    ensures |y| == |M|
  {
    seq(|M|, r requires 0 <= r < |M| => Dot(M[r], x))
  }

  function Add(u: Vector, v: Vector): (w: Vector)
    requires |u| == |v|
    ensures |w| == |u|
  {
    seq(|u|, i requires 0 <= i < |u| => u[i] + v[i])
  }

  function Sub(u: Vector, v: Vector): (w: Vector)
    requires |u| == |v|
    ensures |w| == |u|
  {
    seq(|u|, i requires 0 <= i < |u| => u[i] - v[i])
  }

  /** A linear solver as the schemes use it: given a square matrix and a
      right-hand side, it returns a vector of the same length. The library's
      LU factorisation is not part of this model; what the schemes rely on is
      stated by SolvesExactly. */
  type Solver = f: (Matrix, Vector) -> Vector | forall M, b :: |f(M, b)| == |b|
    witness (M: Matrix, b: Vector) => b

  /** The solver returns an exact solution x of M x = b for every b. */
  ghost predicate SolvesExactly(solve: Solver, M: Matrix) {
    IsSquare(M, |M|) && forall b: Vector {:trigger MatVec(M, solve(M, b))} | |b| == |M| :: MatVec(M, solve(M, b)) == b
  }

  /** The entry (r, c) of the tridiagonal matrix with sub-diagonal sub,
      diagonal diag and super-diagonal sup, all indexed by row. */
  function BandEntry(sub: Vector, diag: Vector, sup: Vector, r: nat, c: nat): real
    requires r < |diag| && |sub| == |diag| == |sup|
  {
    if c == r then diag[r]
    else if c + 1 == r then sub[r]
    else if c == r + 1 then sup[r]
    else 0.0
  }

  /** The tridiagonal matrix, as a reference for the builder below. */
  function Tridiagonal(sub: Vector, diag: Vector, sup: Vector): (M: Matrix)
    requires |sub| == |diag| == |sup|
    ensures IsSquare(M, |diag|)
  {
    seq(|diag|, r requires 0 <= r < |diag| =>
      seq(|diag|, c requires 0 <= c < |diag| => BandEntry(sub, diag, sup, r, c)))
  }

  /** Builds the tridiagonal matrix as the schemes do: a zero matrix, then the
      centre diagonal, then the lower diagonal, then the upper diagonal. */
  method BuildTridiagonal(sub: Vector, diag: Vector, sup: Vector) returns (M: Matrix)
    requires |sub| == |diag| == |sup|
    ensures M == Tridiagonal(sub, diag, sup)
  {
    var n := |diag|;
    M := seq(n, _ => seq(n, _ => 0.0));
    var j := 0;
    while j < n
      invariant 0 <= j <= n
      invariant IsSquare(M, n)
      invariant forall r, c | 0 <= r < n && 0 <= c < n ::
        M[r][c] == (if c == r && r < j then diag[r] else 0.0)
    {
      M := M[j := M[j][j := diag[j]]];
      j := j + 1;
    }
    j := 1;
    while j < n
      invariant 1 <= j || n == 0
      invariant j <= n || n == 0
      invariant IsSquare(M, n)
      invariant forall r, c | 0 <= r < n && 0 <= c < n ::
        M[r][c] == (if c == r then diag[r] else if c + 1 == r && r < j then sub[r] else 0.0)
    {
      M := M[j := M[j][j - 1 := sub[j]]];
      j := j + 1;
    }
    j := 1;
    while j < n
      invariant 1 <= j || n == 0
      invariant j <= n || n == 0
      invariant IsSquare(M, n)
      invariant forall r, c | 0 <= r < n && 0 <= c < n ::
        M[r][c] == (if c == r then diag[r] else if c + 1 == r then sub[r]
                    else if c == r + 1 && c < j then sup[r] else 0.0)
    {
      M := M[j - 1 := M[j - 1][j := sup[j - 1]]];
      j := j + 1;
    }
    var R := Tridiagonal(sub, diag, sup);
    assert forall r | 0 <= r < n :: M[r] == R[r];
  }

  /** The product u[c] v[c], or 0 when c is outside the vectors. */
  function Term(u: Vector, v: Vector, c: int): real
    requires |u| == |v|
  {
    if 0 <= c < |u| then u[c] * v[c] else 0.0
  }

  /** A dot product whose first vector vanishes outside the window
      r-1..r+1 is the sum of the (at most three) products in the window. */
  lemma {:induction false} DotWindow(u: Vector, v: Vector, r: int)
    requires |u| == |v|
    requires forall c | 0 <= c < |u| && (c < r - 1 || c > r + 1) :: u[c] == 0.0
    ensures Dot(u, v) == Term(u, v, r - 1) + Term(u, v, r) + Term(u, v, r + 1)
    decreases |u|
  {
    if |u| > 0 {
      var u', v' := u[1..], v[1..];
      DotWindow(u', v', r - 1);
      TermShift(u, v, r - 2);
      TermShift(u, v, r - 1);
      TermShift(u, v, r);
      if r - 1 > 0 || r + 1 < 0 {
        assert u[0] == 0.0;
      }
    }
  }

  /** Dropping the first entries shifts every product down by one place. */
  lemma TermShift(u: Vector, v: Vector, c: int)
    requires |u| == |v| > 0
    ensures Term(u[1..], v[1..], c) == if c < 0 then 0.0 else Term(u, v, c + 1)
  {
    if 0 <= c < |u| - 1 {
      assert u[1..][c] == u[c + 1] && v[1..][c] == v[c + 1];
    }
  }

  /** Row r of a tridiagonal system: the three-term combination of x around
      r, with the terms that fall off either end of x left out. */
  function BandRow(sub: Vector, diag: Vector, sup: Vector, x: Vector, r: int): real
    requires |sub| == |diag| == |sup| == |x| && 0 <= r < |x|
  {
    (if r > 0 then sub[r] * x[r - 1] else 0.0)
      + diag[r] * x[r]
      + (if r + 1 < |x| then sup[r] * x[r + 1] else 0.0)
  }

  /** Multiplying by a tridiagonal matrix computes BandRow at every row. */
  lemma TridiagonalTimes(sub: Vector, diag: Vector, sup: Vector, x: Vector, r: int)
    requires |sub| == |diag| == |sup| == |x| && 0 <= r < |x|
    ensures MatVec(Tridiagonal(sub, diag, sup), x)[r] == BandRow(sub, diag, sup, x, r)
  {
    var M := Tridiagonal(sub, diag, sup);
    DotWindow(M[r], x, r);
  }

  /** An exact solver's answer satisfies every row of the tridiagonal
      system it was given. */
  lemma SolvedBand(solve: Solver, sub: Vector, diag: Vector, sup: Vector, b: Vector, r: int)
    requires |sub| == |diag| == |sup| == |b| && 0 <= r < |b|
    requires SolvesExactly(solve, Tridiagonal(sub, diag, sup))
    ensures BandRow(sub, diag, sup, solve(Tridiagonal(sub, diag, sup), b), r) == b[r]
  {
    var M := Tridiagonal(sub, diag, sup);
    TridiagonalTimes(sub, diag, sup, solve(M, b), r);
  }

  /** The terms a tridiagonal system over the interior of a row leaves out:
      the first row's sub-diagonal weight on the row's first cell lo, the
      last row's super-diagonal weight on its last cell hi, 0 elsewhere.
      The two are written in that order, so that with a single row the
      second replaces the first. */
  function EndCorrection(sub: Vector, sup: Vector, lo: real, hi: real): (z: Vector)
    requires |sub| == |sup| >= 1
    ensures |z| == |sub|
  {
    var n := |sub|;
    seq(n, _ => 0.0)[0 := sub[0] * lo][n - 1 := sup[n - 1] * hi]
  }

  /** A vector that holds the last row's end term in its last entry, the
      first row's in its first (unless that is also the last), and 0 in
      between is the end correction. */
  lemma EndCorrectionEntries(z: Vector, sub: Vector, sup: Vector, lo: real, hi: real)
    requires |z| == |sub| == |sup| >= 1
    requires z[|z| - 1] == sup[|z| - 1] * hi
    requires |z| > 1 ==> z[0] == sub[0] * lo
    requires forall j | 0 < j < |z| - 1 :: z[j] == 0.0
    ensures z == EndCorrection(sub, sup, lo, hi)
  {
    var e := EndCorrection(sub, sup, lo, hi);
    assert forall j | 0 <= j < |z| :: z[j] == e[j];
  }

  /** The band over the interior row[1..last] of a row, with the end terms
      added back, is the full three-point combination around node j,
      once there are at least two interior nodes. */
  lemma BandWithEnds(sub: Vector, diag: Vector, sup: Vector, row: Vector, last: int, j: int)
    requires |sub| == |diag| == |sup| == last - 1 && 3 <= last < |row| && 0 < j < last
    ensures BandRow(sub, diag, sup, row[1..last], j - 1) + EndCorrection(sub, sup, row[0], row[last])[j - 1]
      == sub[j - 1] * row[j - 1] + diag[j - 1] * row[j] + sup[j - 1] * row[j + 1]
  {
    var x := row[1..last];
    assert x[j - 1] == row[j];
    if j == 1 {
      assert x[j] == row[j + 1];
    } else if j == last - 1 {
      assert x[j - 2] == row[j - 1];
    } else {
      assert x[j - 2] == row[j - 1] && x[j] == row[j + 1];
    }
  }

  /** With a single interior node the band is the node's own term, and
      the end terms hold only the upper one: the lower one is overwritten. */
  lemma BandWithEndsSingle(sub: Vector, diag: Vector, sup: Vector, row: Vector)
    requires |sub| == |diag| == |sup| == 1 && 2 < |row|
    ensures BandRow(sub, diag, sup, row[1..2], 0) + EndCorrection(sub, sup, row[0], row[2])[0]
      == diag[0] * row[1] + sup[0] * row[2]
  {
    assert row[1..2][0] == row[1];
  }

  /** One implicit step over the interior row[1..last] of row: an exact
      solve of the tridiagonal system against the interior of next less the
      end terms of row. */
  ghost predicate ImplicitStep(solve: Solver, sub: Vector, diag: Vector, sup: Vector, row: Vector, next: Vector, last: int)
    requires |sub| == |diag| == |sup| == last - 1 && 2 <= last < |row| && last < |next|
  {
    row[1..last] == solve(Tridiagonal(sub, diag, sup), Sub(next[1..last], EndCorrection(sub, sup, row[0], row[last])))
  }

  /** With an exact solver, an implicit step satisfies the three-point
      equation at every interior node j: the weights of node j applied to
      row give the value of next at j. */
  lemma ImplicitStepNode(solve: Solver, sub: Vector, diag: Vector, sup: Vector, row: Vector, next: Vector, last: int, j: int)
    requires |sub| == |diag| == |sup| == last - 1 && 3 <= last < |row| && last < |next| && 0 < j < last
    requires SolvesExactly(solve, Tridiagonal(sub, diag, sup))
    requires ImplicitStep(solve, sub, diag, sup, row, next, last)
    ensures sub[j - 1] * row[j - 1] + diag[j - 1] * row[j] + sup[j - 1] * row[j + 1] == next[j]
  {
    var b := Sub(next[1..last], EndCorrection(sub, sup, row[0], row[last]));
    SolvedBand(solve, sub, diag, sup, b, j - 1);
    assert next[1..last][j - 1] == next[j];
    BandWithEnds(sub, diag, sup, row, last, j);
  }

  /** With a single interior node, an exact implicit step satisfies the
      equation without the lower boundary's term. */
  lemma ImplicitStepSingle(solve: Solver, sub: Vector, diag: Vector, sup: Vector, row: Vector, next: Vector)
    requires |sub| == |diag| == |sup| == 1 && 2 < |row| && 2 < |next|
    requires SolvesExactly(solve, Tridiagonal(sub, diag, sup))
    requires ImplicitStep(solve, sub, diag, sup, row, next, 2)
    ensures diag[0] * row[1] + sup[0] * row[2] == next[1]
  {
    var b := Sub(next[1..2], EndCorrection(sub, sup, row[0], row[2]));
    SolvedBand(solve, sub, diag, sup, b, 0);
    assert next[1..2][0] == next[1];
    BandWithEndsSingle(sub, diag, sup, row);
  }

  /** Two tridiagonal matrices whose sub- and super-diagonals cancel and
      whose diagonals add up to 2 add up to twice the identity. */
  lemma TridiagonalSumTwiceIdentity(asub: Vector, adiag: Vector, asup: Vector, bsub: Vector, bdiag: Vector, bsup: Vector)
    requires |asub| == |adiag| == |asup| == |bsub| == |bdiag| == |bsup|
    requires forall r | 0 <= r < |adiag| :: asub[r] + bsub[r] == 0.0
    requires forall r | 0 <= r < |adiag| :: adiag[r] + bdiag[r] == 2.0
    requires forall r | 0 <= r < |adiag| :: asup[r] + bsup[r] == 0.0
    ensures forall r, c | 0 <= r < |adiag| && 0 <= c < |adiag| ::
      Tridiagonal(asub, adiag, asup)[r][c] + Tridiagonal(bsub, bdiag, bsup)[r][c] == if r == c then 2.0 else 0.0
  {}

  /** The Sub of two end corrections, entry by entry: the difference of the
      two last-row terms in the last entry, of the two first-row terms in
      the first (unless that is also the last), and 0 in between. */
  lemma EndCorrectionsEntries(z: Vector, asub: Vector, asup: Vector, bsub: Vector, bsup: Vector,
                              alo: real, ahi: real, blo: real, bhi: real)
    requires |z| == |asub| == |asup| == |bsub| == |bsup| >= 1
    requires z[|z| - 1] == asup[|z| - 1] * ahi - bsup[|z| - 1] * bhi
    requires |z| > 1 ==> z[0] == asub[0] * alo - bsub[0] * blo
    requires forall j | 0 < j < |z| - 1 :: z[j] == 0.0
    ensures z == Sub(EndCorrection(asub, asup, alo, ahi), EndCorrection(bsub, bsup, blo, bhi))
  {
    var e := Sub(EndCorrection(asub, asup, alo, ahi), EndCorrection(bsub, bsup, blo, bhi));
    assert forall j | 0 <= j < |z| :: z[j] == e[j];
  }

  /** One balanced step over the interior row[1..last] of row: the solve of
      the system with band b against the band a applied to the interior of
      next, plus next's end terms under a, less row's end terms under b. */
  ghost predicate BalancedStep(solve: Solver, asub: Vector, adiag: Vector, asup: Vector,
                               bsub: Vector, bdiag: Vector, bsup: Vector, row: Vector, next: Vector, last: int)
    requires |asub| == |adiag| == |asup| == |bsub| == |bdiag| == |bsup| == last - 1
    requires 2 <= last < |row| && last < |next|
  {
    row[1..last] == solve(Tridiagonal(bsub, bdiag, bsup),
      Add(MatVec(Tridiagonal(asub, adiag, asup), next[1..last]),
          Sub(EndCorrection(asub, asup, next[0], next[last]), EndCorrection(bsub, bsup, row[0], row[last]))))
  }

  /** With an exact solver, a balanced step makes the three-point
      combination of row under b equal the one of next under a at every
      interior node j, once there are at least two interior nodes; the
      weights are named d, e, f (row j-1 of b) and wa, wb, wc (row j-1 of a). */
  lemma BalancedStepNode(solve: Solver, asub: Vector, adiag: Vector, asup: Vector,
                         bsub: Vector, bdiag: Vector, bsup: Vector, row: Vector, next: Vector, last: int, j: int,
                         wa: real, wb: real, wc: real, d: real, e: real, f: real)
    requires |asub| == |adiag| == |asup| == |bsub| == |bdiag| == |bsup| == last - 1
    requires 3 <= last < |row| && last < |next| && 0 < j < last
    requires asub[j - 1] == wa && adiag[j - 1] == wb && asup[j - 1] == wc
    requires bsub[j - 1] == d && bdiag[j - 1] == e && bsup[j - 1] == f
    requires SolvesExactly(solve, Tridiagonal(bsub, bdiag, bsup))
    requires BalancedStep(solve, asub, adiag, asup, bsub, bdiag, bsup, row, next, last)
    ensures d * row[j - 1] + e * row[j] + f * row[j + 1] == wa * next[j - 1] + wb * next[j] + wc * next[j + 1]
  {
    var y := next[1..last];
    var ea := EndCorrection(asub, asup, next[0], next[last]);
    var eb := EndCorrection(bsub, bsup, row[0], row[last]);
    var rhs := Add(MatVec(Tridiagonal(asub, adiag, asup), y), Sub(ea, eb));
    SolvedBand(solve, bsub, bdiag, bsup, rhs, j - 1);
    TridiagonalTimes(asub, adiag, asup, y, j - 1);
    BandWithEnds(bsub, bdiag, bsup, row, last, j);
    BandWithEnds(asub, adiag, asup, next, last, j);
  }

  /** With a single interior node, a balanced step under an exact solver
      balances the two combinations without either lower boundary term. */
  lemma BalancedStepSingle(solve: Solver, asub: Vector, adiag: Vector, asup: Vector,
                           bsub: Vector, bdiag: Vector, bsup: Vector, row: Vector, next: Vector,
                           wb: real, wc: real, e: real, f: real)
    requires |asub| == |adiag| == |asup| == |bsub| == |bdiag| == |bsup| == 1
    requires 2 < |row| && 2 < |next|
    requires adiag[0] == wb && asup[0] == wc && bdiag[0] == e && bsup[0] == f
    requires SolvesExactly(solve, Tridiagonal(bsub, bdiag, bsup))
    requires BalancedStep(solve, asub, adiag, asup, bsub, bdiag, bsup, row, next, 2)
    ensures e * row[1] + f * row[2] == wb * next[1] + wc * next[2]
  {
    var y := next[1..2];
    var ea := EndCorrection(asub, asup, next[0], next[2]);
    var eb := EndCorrection(bsub, bsup, row[0], row[2]);
    var rhs := Add(MatVec(Tridiagonal(asub, adiag, asup), y), Sub(ea, eb));
    SolvedBand(solve, bsub, bdiag, bsup, rhs, 0);
    TridiagonalTimes(asub, adiag, asup, y, 0);
    BandWithEndsSingle(bsub, bdiag, bsup, row);
    BandWithEndsSingle(asub, adiag, asup, next);
  }
}
