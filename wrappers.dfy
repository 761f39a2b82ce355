/** Failure-compatible wrappers shared by every module of the assembler model. */
module Wrappers {

  /** A value that may be absent: Python's `None` versus a value. */
  datatype Option<+T> = None | Some(value: T)

  /** Either a value or the error that stopped the computation; usable with `:-`. */
  datatype Result<+T, +E> = Success(value: T) | Failure(error: E) {

    predicate IsFailure() {
      Failure?
    }

    function PropagateFailure<U>(): Result<U, E>
      requires Failure?
    {
      Failure(error)
    }

    function Extract(): T
      requires Success?
    {
      value
    }
  }
}
