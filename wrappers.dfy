/** Option and Result, for values that may be missing and calls that may raise. */
module Wrappers {

  datatype Option<+T> = None | Some(value: T)

  /** The outcome of a call that may raise: its value, or the text of the exception. */
  datatype Result<+T, +E> = Success(value: T) | Failure(error: E)
}
