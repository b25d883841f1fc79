/** Failure-compatible wrappers shared by the whole model. */
module Wrappers {

  /** An optional value; `None` plays the role of Python's `None`. */
  datatype Option<+T> = None | Some(value: T)

  /** Either a value or an error, for operations whose source raises an exception. */
  datatype Result<+T, +E> = Success(value: T) | Failure(error: E)
}
