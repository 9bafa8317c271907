/** Failure-carrying wrappers shared by every module of the model. */
module Wrappers {

  /** A value that may be absent (the source's `null`, `false` or missing match). */
  datatype Option<+T> = None | Some(value: T)

  /** The outcome of an operation that may throw: a value, or the error it throws. */
  datatype Result<+T, +E> = Success(value: T) | Failure(error: E) {
    predicate IsFailure() { Failure? }
  }
}
