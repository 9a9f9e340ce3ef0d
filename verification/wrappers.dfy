/** `Option` and `Result`, used by the task loop model. */
module Wrappers {

  /** An optional value; `None` plays the part of JavaScript's `undefined`. */
  datatype Option<+T> = None | Some(value: T)

  /** The outcome of an operation that either succeeds with a value or throws. */
  datatype Result<+R, +E> = Success(value: R) | Failure(error: E)
}
