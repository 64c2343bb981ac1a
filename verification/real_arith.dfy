/** Small facts about real multiplication and division, each stated so that
    callers can use it by matching terms rather than by further arithmetic. */
module RealArith {

  // Proof helpers: none of these is a property of the pricing model; each
  // lets a caller take a step of real arithmetic by matching terms.

  /** Strict positivity, as a named predicate so that a fact about a product
      can be handed on without restating the product. */
  predicate Positive(x: real) {
    x > 0.0
  }

  /** The square of a non-zero real is positive. */
  lemma SquarePositive(x: real)
    requires x != 0.0
    ensures Positive(x * x)
  {}

  /** Dividing a product by h is multiplying by the quotient. */
  lemma DivAssoc(x: real, s: real, h: real)
    requires h != 0.0
    ensures x * s / h == x * (s / h)
  {}

  /** Multiplication commutes; stated as a lemma so that the two orders of
      one product can be identified by a call. */
  lemma MulComm(x: real, y: real)
    ensures x * y == y * x
  {}

  /** The product of two non-negative reals is non-negative. */
  lemma NonNegativeProduct(a: real, b: real)
    requires a >= 0.0 && b >= 0.0
    ensures a * b >= 0.0
  {}

  /** The product of two positive reals is positive. */
  lemma PositiveProduct(a: real, b: real)
    requires a > 0.0 && b > 0.0
    ensures a * b > 0.0
  {}

  /** A three-point equation keeps holding when its weights are replaced
      by equal ones. */
  lemma SameWeights(a: real, b: real, c: real, a': real, b': real, c': real, x: real, y: real, z: real, next: real)
    requires a == a' && b == b' && c == c'
    requires a' * x + b' * y + c' * z == next
    ensures a * x + b * y + c * z == next
  {}

  /** The same for the two-point equation of a single interior node. */
  lemma SameWeightsSingle(b: real, c: real, b': real, c': real, y: real, z: real, next: real)
    requires b == b' && c == c'
    requires b' * y + c' * z == next
    ensures b * y + c * z == next
  {}
}
