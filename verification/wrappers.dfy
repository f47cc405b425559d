/** Failure-compatible datatypes shared by the codec modules. */
module Wrappers {

  /** A value that may be absent; stands for JavaScript's `null`. */
  datatype Option<+T> = None | Some(value: T)

  /** The outcome of a step that may throw: either a value or the reason it threw. */
  datatype Result<+R, +E> = Success(value: R) | Failure(error: E) {

    predicate IsFailure() {
      Failure?
    }

    function PropagateFailure<U>(): Result<U, E>
      requires Failure?
    {
      Failure(error)
    }

    function Extract(): R
      requires Success?
    {
      value
    }
  }
}
