/** Failure-carrying result types shared by the whole model. */
module Wrappers {

  /** A value that may be missing: Go's `(v, ok)` lookup pair. */
  datatype Option<+T> = None | Some(value: T)

  /** A value or an error: Go's `(v, err)` return pair. */
  datatype Result<+T, +E> = Success(value: T) | Failure(error: E)
}
