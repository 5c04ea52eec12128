/** Failure-carrying wrappers shared by the rest of the model. */
module Wrappers {

  /** A value that may be absent. */
  datatype Option<+T> = None | Some(value: T)

  /** The outcome of an operation that may raise: a value or an exception. */
  datatype Result<+T, +E> = Success(value: T) | Failure(error: E)
}
