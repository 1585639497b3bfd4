/** Failure-carrying result types shared by the whole model. */
module Wrappers {

  /** Python's `None`-or-value return convention. */
  datatype Option<+T> = None | Some(value: T)

  /** The outcome of a call that may raise: the value, or the error it raised. */
  datatype Result<+R, +E> = Success(value: R) | Failure(error: E)
}
