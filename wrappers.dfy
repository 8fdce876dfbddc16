/** Failure-compatible result types shared by the modules of this project. */
module Wrappers {

  /** A value that may be absent (the source's `None`). */
  datatype Option<+T> = None | Some(value: T)

  /** A value or the error that the source would raise instead. */
  datatype Result<+T, +E> = Success(value: T) | Failure(error: E) {

    predicate IsFailure() {
      Failure?
    }

    function PropagateFailure<U>(): Result<U, E>
      requires Failure?
    {
      Failure(error)
    }

    function Extract(): T
      requires Success?
    {
      value
    }
  }
}
