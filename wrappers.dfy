/** Wrappers for Java's null results and thrown exceptions. */
module Wrappers {

  /** A value or nothing: Java's `null` return. */
  datatype Option<+T> = None | Some(value: T)

  /** A value or the error a Java method would have thrown. */
  datatype Result<+T, +E> = Success(value: T) | Failure(error: E)
}
