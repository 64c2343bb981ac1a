/** The Black-Scholes market: a plain parameter record read by the solvers. */
module Market {

  /** Spot price, risk-free rate, volatility and dividend yield. The dividend
      yield is stored but no operation of the pricing kernel reads it. */
  datatype BlackScholesModel = BlackScholesModel(s0: real, r: real, volatility: real, div: real)
}
