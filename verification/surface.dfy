/** The price surface V[i][j] (time row i, price column j) that every scheme
    fills, and the facts about it that all three schemes share. */
module Surfaces {
  import opened Discretization

  type Surface = seq<seq<real>>

  /** The surface holds every cell of the (iMax+1) x (jMax+1) grid. */
  predicate Fits(V: Surface, g: Grid) {
    0 <= g.iMax < |V| && 0 <= g.jMax && forall i | 0 <= i < |V| :: g.jMax < |V[i]|
  }

  predicate SameShape(V: Surface, W: Surface) {
    |V| == |W| && forall i | 0 <= i < |V| :: |V[i]| == |W[i]|
  }

  /** Cells outside the grid keep the value they had. */
  ghost predicate OutsideUnchanged(V: Surface, W: Surface, g: Grid)
    requires SameShape(V, W)
  {
    forall i, j | 0 <= i < |V| && 0 <= j < |V[i]| && (i > g.iMax || j > g.jMax) :: W[i][j] == V[i][j]
  }

  /** Row iMax holds the terminal condition at every price node. */
  ghost predicate TerminalRow(W: Surface, g: Grid, c: Conditions)
    requires g.jMax != 0 && Fits(W, g)
  {
    forall j | 0 <= j <= g.jMax :: W[g.iMax][j] == c.terminal(AssetPrice(g, j))
  }

  /** Rows from..iMax-1 hold the boundary conditions at time k i in their
      first and last price columns. */
  ghost predicate BoundaryColumns(W: Surface, g: Grid, c: Conditions, k: real, from: int)
    requires Fits(W, g)
  {
    forall i | 0 <= from <= i < g.iMax ::
      W[i][0] == c.lower(k * i as real) && W[i][g.jMax] == c.upper(k * i as real)
  }

  /** Writes the terminal condition into price columns 0..jMax of a row. */
  method FillTerminal(row: seq<real>, g: Grid, c: Conditions) returns (r: seq<real>)
    requires 1 <= g.jMax < |row|
    ensures |r| == |row|
    ensures forall j | 0 <= j <= g.jMax :: r[j] == c.terminal(AssetPrice(g, j))
    ensures r[g.jMax + 1..] == row[g.jMax + 1..]
  {
    r := row;
    var j := 0;
    while j <= g.jMax
      invariant 0 <= j <= g.jMax + 1
      invariant |r| == |row|
      invariant forall jj | 0 <= jj < j :: r[jj] == c.terminal(AssetPrice(g, jj))
      invariant r[g.jMax + 1..] == row[g.jMax + 1..]
    {
      r := r[j := c.terminal(AssetPrice(g, j))];
      j := j + 1;
    }
  }

  /** The surface with the terminal condition written into row iMax; every
      other cell keeps its value. */
  method SetTerminal(V: Surface, g: Grid, c: Conditions) returns (W: Surface)
    requires g.jMax >= 1 && Fits(V, g)
    ensures SameShape(V, W) && Fits(W, g) && OutsideUnchanged(V, W, g)
    ensures TerminalRow(W, g, c)
    ensures forall i | 0 <= i < |V| && i != g.iMax :: W[i] == V[i]
  {
    var row := FillTerminal(V[g.iMax], g, c);
    W := V[g.iMax := row];
    forall r, j | 0 <= r < |V| && 0 <= j < |V[r]| && (r > g.iMax || j > g.jMax)
      ensures W[r][j] == V[r][j]
    {
      if r == g.iMax {
        assert row[j] == row[g.jMax + 1..][j - g.jMax - 1];
      }
    }
  }

  /** Replacing row i-1 by a row that carries the boundary values at time
      k (i-1) keeps the later rows, and so every fact about them, and extends
      the boundary columns by one row. */
  lemma ReplaceRow(W: Surface, i: int, row: seq<real>, V: Surface, g: Grid, c: Conditions, k: real)
    requires g.jMax != 0 && Fits(W, g) && SameShape(V, W) && OutsideUnchanged(V, W, g)
    requires TerminalRow(W, g, c) && BoundaryColumns(W, g, c, k, i)
    requires 0 < i <= g.iMax && |row| == |W[i - 1]|
    requires row[0] == c.lower(k * (i - 1) as real) && row[g.jMax] == c.upper(k * (i - 1) as real)
    requires row[g.jMax + 1..] == W[i - 1][g.jMax + 1..]
    ensures var W' := W[i - 1 := row];
      && Fits(W', g) && SameShape(V, W') && OutsideUnchanged(V, W', g)
      && TerminalRow(W', g, c) && BoundaryColumns(W', g, c, k, i - 1)
      && W'[i - 1] == row
      && forall r | i <= r < |W| :: W'[r] == W[r]
  {
    var W' := W[i - 1 := row];
    forall r, j | 0 <= r < |V| && 0 <= j < |V[r]| && (r > g.iMax || j > g.jMax)
      ensures W'[r][j] == V[r][j]
    {
      if r == i - 1 {
        assert row[j] == row[g.jMax + 1..][j - g.jMax - 1];
      }
    }
    forall r | i - 1 <= r < g.iMax
      ensures W'[r][0] == c.lower(k * r as real) && W'[r][g.jMax] == c.upper(k * r as real)
    {
      if r == i - 1 {
        assert W'[r] == row;
        assert r as real == (i - 1) as real;
        assert k * r as real == k * (i - 1) as real;
      }
    }
  }

  /** The interior price columns 1..jMax-1 of a row. */
  function Interior(row: seq<real>, jMax: int): (y: seq<real>)
    requires 1 <= jMax <= |row|
    ensures |y| == jMax - 1
  {
    row[1..jMax]
  }

  /** Copies x into the interior columns of a row, column j receiving x[j-1]. */
  method WriteInterior(row: seq<real>, x: seq<real>, jMax: int) returns (r: seq<real>)
    requires 1 <= jMax <= |row| && |x| == jMax - 1
    ensures |r| == |row|
    ensures r[0] == row[0]
    ensures Interior(r, jMax) == x
    ensures r[jMax..] == row[jMax..]
  {
    r := row;
    var j := 1;
    while j < jMax
      invariant 1 <= j <= jMax
      invariant |r| == |row|
      invariant r[0] == row[0]
      invariant forall jj | 1 <= jj < j :: r[jj] == x[jj - 1]
      invariant r[jMax..] == row[jMax..]
    {
      r := r[j := x[j - 1]];
      j := j + 1;
    }
  }
}
