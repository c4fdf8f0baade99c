/**
 Failure-compatible wrappers shared by the whole model: `Option` for a value
 that may be undefined (a NaN score) and `Result` for an operation that may
 raise (pandas' `KeyError` on a missing column).
 */
module Wrappers {

  datatype Option<+T> = None | Some(value: T)

  datatype Result<+R, +E> = Success(value: R) | Failure(error: E) {

    predicate IsFailure() {
      Failure?
    }

    function PropagateFailure<U>(): Result<U, E>
      requires Failure?
    {
      Failure(error)
    }

    function Extract(): R
      requires Success?
    {
      value
    }
  }
}
