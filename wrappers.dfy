/** Failure-compatible wrappers shared by the whole model. */
module Wrappers {

  /** A value that may be missing; `None` also stands for a NULL pointer. */
  datatype Option<+T> = None | Some(value: T)

  /** The outcome of a Swift function that `throws`: a value or the error thrown. */
  datatype Result<+T, +E> = Success(value: T) | Failure(error: E) {
    predicate IsFailure() { Failure? }

    function PropagateFailure<U>(): Result<U, E>
      requires Failure?
    {
      Failure(error)
    }

    function Extract(): T
      requires Success?
    {
      value
    }
  }

  /** The outcome of a throwing function that returns nothing. */
  datatype Outcome<+E> = Pass | Fail(error: E) {
    predicate IsFailure() { Fail? }

    function PropagateFailure<U>(): Result<U, E>
      requires Fail?
    {
      Failure(error)
    }
  }
}
