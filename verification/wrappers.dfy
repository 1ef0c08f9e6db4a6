/** Failure-carrying wrappers used throughout the model. */
module Wrappers {

  /** A value that may be absent. */
  datatype Option<+T> = None | Some(value: T)

  /** Either a value or the error that the Python program would raise instead. */
  datatype Result<+T, +E> = Success(value: T) | Failure(error: E)
}
