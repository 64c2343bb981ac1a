/** The time x asset-price grid on which the Black-Scholes equation is solved,
    and the terminal and boundary conditions that close it. */
module Discretization {

  /** Grid parameters exactly as the caller supplies them: the constructor
      stores all four and checks none of them. */
  datatype Grid = Grid(minS: real, maxS: real, iMax: int, jMax: int)

  /** The three caller-supplied conditions: the payoff at maturity as a
      function of the asset price, and the values on the lower and upper
      price boundaries as functions of time. */
  datatype Conditions = Conditions(terminal: real -> real, lower: real -> real, upper: real -> real)

  /** The asset-price increment h. */
  function PriceStep(g: Grid): real
    requires g.jMax != 0
  {
    (g.maxS - g.minS) / g.jMax as real
  }

  /** The asset price S(j) at price node j. */
  function AssetPrice(g: Grid, j: int): real
    requires g.jMax != 0
  {
    g.minS + PriceStep(g) * j as real
  }

  /** The time increment k, which depends on the option's maturity T. */
  function TimeStep(g: Grid, T: real): real
    requires g.iMax != 0
  {
    T / g.iMax as real
  }

  /** The time t(i) at time node i. */
  function Time(g: Grid, T: real, i: int): real
    requires g.iMax != 0
  {
    TimeStep(g, T) * i as real
  }

  /** jMax steps of h span [minS, maxS]. */
  lemma PriceStepSpans(g: Grid)
    requires g.jMax != 0
    ensures PriceStep(g) * g.jMax as real == g.maxS - g.minS
  {}

  /** S(j) lies the fraction j/jMax of the way from minS to maxS. */
  lemma AssetPriceSpans(g: Grid, j: int)
    requires g.jMax != 0
    ensures (AssetPrice(g, j) - g.minS) * g.jMax as real == (g.maxS - g.minS) * j as real
  {
    var h := PriceStep(g);
    PriceStepSpans(g);
    assert (h * j as real) * g.jMax as real == (h * g.jMax as real) * j as real;
  }

  /** iMax steps of k span [0, T]. */
  lemma TimeStepSpans(g: Grid, T: real)
    requires g.iMax != 0
    ensures TimeStep(g, T) * g.iMax as real == T
  {}

  /** t(i) lies the fraction i/iMax of the way from 0 to T. */
  lemma TimeSpans(g: Grid, T: real, i: int)
    requires g.iMax != 0
    ensures Time(g, T, i) * g.iMax as real == T * i as real
  {
    var k := TimeStep(g, T);
    TimeStepSpans(g, T);
    assert (k * i as real) * g.iMax as real == (k * g.iMax as real) * i as real;
  }

  /** The price nodes start at minS and end at maxS. */
  lemma AssetPriceEnds(g: Grid)
    requires g.jMax != 0
    ensures AssetPrice(g, 0) == g.minS
    ensures AssetPrice(g, g.jMax) == g.maxS
  {
    AssetPriceSpans(g, g.jMax);
  }

  /** Consecutive price nodes are exactly h apart. */
  lemma AssetPriceStep(g: Grid, j: int)
    requires g.jMax != 0
    ensures AssetPrice(g, j + 1) - AssetPrice(g, j) == PriceStep(g)
  {
  }

  /** With a non-empty price range and a positive number of steps the price
      nodes are strictly increasing. */
  lemma AssetPriceIncreasing(g: Grid, j: int, j': int)
    requires g.jMax > 0 && g.maxS > g.minS
    requires j < j'
    ensures AssetPrice(g, j) < AssetPrice(g, j')
  {
    var h := PriceStep(g);
    assert h > 0.0;
    assert AssetPrice(g, j') - AssetPrice(g, j) == h * (j' - j) as real;
  }

  /** The time nodes start at 0 and end at the maturity T. */
  lemma TimeEnds(g: Grid, T: real)
    requires g.iMax != 0
    ensures Time(g, T, 0) == 0.0
    ensures Time(g, T, g.iMax) == T
  {
  }
}
