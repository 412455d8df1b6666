/** Failure-compatible wrappers shared by the other modules. */
module Wrappers {

  /** A value that may be missing; models a Go `nil` result. */
  datatype Option<+T> = None | Some(value: T)

  /** Either a value or the error a Go function returned beside it. */
  datatype Result<+R, +E> = Success(value: R) | Failure(error: E)
}
