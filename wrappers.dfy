/** Failure-compatible result types used across the model. */
module Wrappers {

  /** A value that may be absent; stands for a Go nil pointer or a missing entry. */
  datatype Option<+T> = None | Some(value: T)

  /** Either a value or an error; stands for Go's `(value, error)` return pair. */
  datatype Result<+R, +E> = Success(value: R) | Failure(error: E) {
    predicate IsFailure() { Failure? }

    function PropagateFailure<U>(): Result<U, E>
      requires Failure?
    {
      Failure(error)
    }

    function Extract(): R
      requires Success?
    {
      value
    }
  }
}
