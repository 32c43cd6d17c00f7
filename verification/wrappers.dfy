/** Failure-carrying datatypes shared by the store model. */
module Wrappers {

  /** A value that may be absent (a Java reference that may be null). */
  datatype Option<+T> = None | Some(value: T)

  /** Either a value or the error that a Java exception would carry. */
  datatype Result<+R, +E> = Success(value: R) | Failure(error: E)

  /** The outcome of an operation that returns nothing (a Java `void`) but may throw. */
  datatype Outcome<+E> = Pass | Fail(error: E)
}
