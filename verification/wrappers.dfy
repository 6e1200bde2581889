/** Failure-carrying return values, standing in for Java's null results and exceptions. */
module Wrappers {

  /** A value that may be absent (Java's null). */
  datatype Option<+T> = None | Some(value: T)

  /** An operation that produces a value or fails with an error (a thrown exception). */
  datatype Result<+T, +E> = Success(value: T) | Failure(error: E)

  /** An operation that only succeeds or fails (a void method that may throw). */
  datatype Outcome<+E> = Pass | Fail(error: E)
}
