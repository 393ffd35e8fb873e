/** Option and Result, the failure-carrying values used throughout the model. */
module Wrappers {

  /** A value that may be absent: the outcome of a conversion that may fail. */
  datatype Option<+T> = None | Some(value: T)

  /** Either a value or the error that took its place: a raised exception, as data. */
  datatype Result<+T, +E> = Success(value: T) | Failure(error: E)
}
