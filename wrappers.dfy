/** Failure-carrying values standing in for Go's `(value, error)` returns. */
module Wrappers {

  /** A value or an error. */
  datatype Result<+R, +E> = Success(value: R) | Failure(error: E)

  /** Success without a value, or an error: Go's lone `error` return. */
  datatype Outcome<+E> = Pass | Fail(error: E)
}
