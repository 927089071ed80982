/** Failure-carrying results used where the Java code returns null or throws. */
module Wrappers {

  /** A value that may be absent: Java's nullable reference. */
  datatype Option<+T> = None | Some(value: T)

  /** Either a value or the error a Java method would have thrown. */
  datatype Result<+R, +E> = Success(value: R) | Failure(error: E)
}
