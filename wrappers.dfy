/** Failure-carrying values shared by the whole model. */
module Wrappers {

  datatype Option<+T> = None | Some(value: T)

  datatype Result<+R, +E> = Success(value: R) | Failure(error: E)

  /** The outcome of an operation that only succeeds or fails, like a Ruby method that may raise. */
  datatype Outcome<+E> = Pass | Fail(error: E)
}
