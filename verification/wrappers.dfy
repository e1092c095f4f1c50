/** Option and Result, the failure-carrying values the model uses in place of
    Go's nil pointers and `(value, error)` pairs. */
module Wrappers {

  /** A value that may be absent, as a Go pointer that may be nil. */
  datatype Option<+T> = None | Some(value: T) {

    /** The value, or the given default when absent. */
    function GetOr(default: T): T {
      match this
      case Some(v) => v
      case None => default
    }
  }

  /** The outcome of an operation that either yields a value or fails with an error. */
  datatype Result<+R, +E> = Success(value: R) | Failure(error: E) {

    /** True if is Failure */
    predicate IsFailure() {
      Failure?
    }

    /** Converts a Failure to a Result of another value type with the same error. */
    function PropagateFailure<U>(): Result<U, E>
      requires Failure?
    {
      Failure(this.error)
    }

    /** Returns the value encapsulated in Success */
    function Extract(): R
      requires Success?
    {
      value
    }
  }
}
