/** Failure-compatible result types shared by every module of the model. */
module Wrappers {

  /** A value that may be missing: pandas' NaN for a numeric cell. */
  datatype Option<+T> = None | Some(value: T)

  /** The outcome of a processing step that may abort, as a failed `assert`
      or a raised exception aborts the scripts. */
  datatype Result<+T, +E> = Success(value: T) | Failure(error: E) {

    predicate IsFailure() {
      Failure?
    }

    function PropagateFailure<U>(): Result<U, E>
      requires Failure?
    {
      Failure(error)
    }

    function Extract(): T
      requires Success?
    {
      value
    }
  }
}
