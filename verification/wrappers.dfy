/** Failure-carrying results for operations that the original code may abort
    with an exception (an out-of-range array read, an argument check). */
module Wrappers {

  datatype Option<+T> = None | Some(value: T)

  datatype Result<+T, +E> = Success(value: T) | Failure(error: E)

  /** The reason a finite-difference solve can stop before filling the
      surface: the explicit scheme's guard, or a grid with no interior price
      node, on which the implicit-family schemes cannot build their system. */
  datatype SolveError = UnstableConfiguration | NoInteriorNodes
}
