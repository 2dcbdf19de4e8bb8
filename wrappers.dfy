/** Option and Result: the optional values and error returns of the model. */
module Wrappers {

  /** A value that may be absent (an unset request field, a missed lookup). */
  datatype Option<+T> = None | Some(value: T)

  /** The outcome of an operation that can fail with an error value. */
  datatype Result<+T, +E> = Success(value: T) | Failure(error: E)
}
