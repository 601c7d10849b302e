/** Failure-compatible result types used by the key ring model. */
module Wrappers {

  /** A value that may be absent: Java's nullable return of findKeyById. */
  datatype Option<+T> = None | Some(value: T)

  /** A value, or the error that was thrown instead of returning it. */
  datatype Result<+T, +E> = Success(value: T) | Failure(error: E)

  /** A void operation that either completes or throws. */
  datatype Outcome<+E> = Pass | Fail(error: E)
}
