/** Failure-carrying result types used in place of Java exceptions. */
module Wrappers {

  /** A value that may be absent. */
  datatype Option<+T> = None | Some(value: T)

  /** Either a successful value or the error the Java code would throw. */
  datatype Result<+T, +E> = Success(value: T) | Failure(error: E)
}
