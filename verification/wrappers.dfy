/** Failure-compatible wrappers shared by the contact-book modules. */
module Wrappers {

  /** Python's `Optional[T]`: a value or `None`. */
  datatype Option<+T> = None | Some(value: T)

  /** The outcome of an operation that may raise: the new value, or the raised error. */
  datatype Result<+T, +E> = Success(value: T) | Failure(error: E)
}
