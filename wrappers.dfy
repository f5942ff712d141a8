/** Option and Result, the two failure-compatible types the model uses. */
module Wrappers {

  datatype Option<+T> = None | Some(value: T)

  /** The outcome of a run: a value, or the error that aborted it. */
  datatype Result<+T, +E> = Success(value: T) | Failure(error: E) {

    predicate IsFailure() {
      Failure?
    }

    function PropagateFailure<U>(): Result<U, E>
      requires Failure?
    {
      Failure(error)
    }

    function Extract(): T
      requires Success?
    {
      value
    }
  }
}
