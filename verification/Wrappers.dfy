/** Failure-compatible result types: Java's nullable references and
    exceptions become values of these datatypes. */
module Wrappers {

  /** A value that may be absent (java.util.Optional). */
  datatype Option<+T> = None | Some(value: T)

  /** The outcome of a computation that may throw: a value or an error. */
  datatype Result<+R, +E> = Success(value: R) | Failure(error: E) {

    predicate IsFailure() {
      Failure?
    }

    function PropagateFailure<U>(): Result<U, E>
      requires Failure?
    {
      Failure(error)
    }

    function Extract(): R
      requires Success?
    {
      value
    }
  }
}
