/** Failure-carrying wrappers shared by the whole model. */
module Wrappers {

  /** A Java `Optional` or a nullable reference: `None` stands for empty/null. */
  datatype Option<+T> = None | Some(value: T)

  /** The value of an operation that either returns or throws. */
  datatype Result<+T, +E> = Success(value: T) | Failure(error: E)

  /** The outcome of a `void` operation that may throw. */
  datatype Outcome<+E> = Pass | Fail(error: E)
}
