/** Failure-compatible wrappers shared by the other modules. */
module Wrappers {

  /** A present or absent value; `None` plays the part of Go's nil. */
  datatype Option<+T> = None | Some(value: T)

  /** A value or an error, for Go's `(T, error)` results. */
  datatype Result<+T, +E> = Success(value: T) | Failure(error: E) {
    predicate IsFailure() {
      Failure?
    }

    function PropagateFailure<U>(): Result<U, E>
      requires Failure?
    {
      Failure(error)
    }

    function Extract(): T
      requires Success?
    {
      value
    }
  }
}
