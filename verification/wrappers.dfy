/** Failure-compatible wrappers shared by the other modules. */
module Wrappers {

  /** An optional value: a JSON field that may be absent. */
  datatype Option<+T> = None | Some(value: T)

  /** Either a value or the message of the error that was thrown instead. */
  datatype Result<+R, +E> = Success(value: R) | Failure(error: E)
}
