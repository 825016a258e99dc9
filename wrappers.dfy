/** Failure-carrying result types used across the model. */
module Wrappers {

  /** A value that may be absent (JavaScript's `undefined` / `null`). */
  datatype Option<+T> = None | Some(value: T)

  /** Either a value or the error that was thrown instead of producing it. */
  datatype Result<+R, +E> = Success(value: R) | Failure(error: E)

  /** Completion of an operation that produces no value: it either finishes or throws. */
  datatype Outcome<+E> = Pass | Fail(error: E)
}
