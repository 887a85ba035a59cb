/** Option and Result, the failure-carrying values used throughout the model. */
module Wrappers {

  datatype Option<+T> = None | Some(value: T)

  /** Either a value, or the exception the source throws instead of returning. */
  datatype Result<+R, +E> = Success(value: R) | Failure(error: E)
}
