/** Option and Result, used for the error paths the backend raises as exceptions. */
module Wrappers {

  datatype Option<+T> = None | Some(value: T)

  datatype Result<+R, +E> = Success(value: R) | Failure(error: E)

  /** A computation that either completes or fails, carrying no value. */
  datatype Outcome<+E> = Pass | Fail(error: E)
}
