/** Failure-compatible wrappers shared by the whole model. */
module Wrappers {

  /** A value that may be absent: an unset PHP property or array entry. */
  datatype Option<+T> = None | Some(value: T)

  /** Either a value or the reason the computation stopped. */
  datatype Result<+R, +E> = Success(value: R) | Failure(error: E)
}
