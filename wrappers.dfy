/**
 * Option and Result, the failure-compatible wrappers used for Go's `(value, error)` returns, and
 * Outcome, for a Go call that may stop with a run-time panic instead of returning.
 */
module Wrappers {

  datatype Option<+T> = None | Some(value: T)

  datatype Result<+T, +E> = Ok(value: T) | Err(error: E) {

    predicate IsFailure() {
      Err?
    }

    function PropagateFailure<U>(): Result<U, E>
      requires Err?
    {
      Err(error)
    }

    function Extract(): T
      requires Ok?
    {
      value
    }
  }

  /** Either the call panics (a slice bound out of range, a failed type assertion) or it returns. */
  datatype Outcome<+T> = Panic | Done(value: T)
}
