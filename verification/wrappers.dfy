/** Failure-compatible wrappers: a missing value and the outcome of a call that may raise. */
module Wrappers {

  /** `None` stands for a missing value (NaN in a series, an absent key in a dict). */
  datatype Option<+T> = None | Some(value: T) {
    /** The value, or `default` when missing. */
    function GetOr(default: T): T {
      match this
      case Some(v) => v
      case None => default
    }
  }

  /** The outcome of an operation that either returns a value or raises an error. */
  datatype Result<+R, +E> = Success(value: R) | Failure(error: E) {
    predicate IsFailure() {
      Failure?
    }

    function PropagateFailure<U>(): Result<U, E>
      requires Failure?
    {
      Failure(error)
    }

    function Extract(): R
      requires Success?
    {
      value
    }
  }
}
