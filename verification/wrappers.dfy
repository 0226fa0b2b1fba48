/** Failure-carrying results used in place of Java's exceptions and nulls. */
module Wrappers {

  /** A value that may be absent, standing for a Java reference that may be null. */
  datatype Option<+T> = None | Some(value: T)

  /** The outcome of an operation that may throw: either its value or the error it raises. */
  datatype Result<+T, +E> = Success(value: T) | Failure(error: E)
}
