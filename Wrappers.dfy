/** Failure-carrying result types used in place of Java's null returns and exceptions. */
module Wrappers {

  /** A value that may be missing: Java's `null` reference. */
  datatype Option<+T> = None | Some(value: T)

  /** Either a computed value or the error that the Java code throws instead. */
  datatype Result<+R, +E> = Success(value: R) | Failure(error: E)

  /** A void Java method: it returns normally or throws. */
  datatype Outcome<+E> = Pass | Fail(error: E)
}
