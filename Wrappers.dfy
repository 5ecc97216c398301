/** Option and Result: Java's nullable references and thrown exceptions, as values. */
module Wrappers {

  /** A Java reference that may be null. */
  datatype Option<+T> = None | Some(value: T)

  /** The outcome of a Java call that may throw an exception of type E. */
  datatype Result<+T, +E> = Success(value: T) | Failure(error: E)
}
