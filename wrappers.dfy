/** Failure-carrying result types used by the use cases. */
module Wrappers {

  /** An optional value: models an optional (possibly `undefined`) parameter. */
  datatype Option<+T> = None | Some(value: T)

  /** A computed value or the error that was thrown instead. */
  datatype Result<+R, +E> = Success(value: R) | Failure(error: E)

  /** Completion of an operation that returns nothing, or the error it threw. */
  datatype Outcome<+E> = Pass | Fail(error: E)
}
