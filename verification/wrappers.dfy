/** Failure-carrying result types shared by the modules of this model. */
module Wrappers {

  /** A value that may be absent: JavaScript's `null`/`undefined` and Python's `None`. */
  datatype Option<+T> = None | Some(value: T)

  /** Either a value, or the error a call raised or threw instead of returning. */
  datatype Result<+T, +E> = Success(value: T) | Failure(error: E)
}
