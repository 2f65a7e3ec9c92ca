/** `Option` stands for an optional `previousHash` argument and for a peer reply that may be
    missing; `Result` for the exception `resolve_conflicts` can raise. */
module Wrappers {

  /** A value or Python's `None`. */
  datatype Option<+T> = None | Some(value: T)

  /** The value an operation returns, or the error it raises; `:-` propagates the error. */
  datatype Result<+R, +E> = Success(value: R) | Failure(error: E) {

    predicate IsFailure() {
      Failure?
    }

    function PropagateFailure<U>(): Result<U, E>
      requires Failure?
    {
      Failure(error)
    }

    function Extract(): R
      requires Success?
    {
      value
    }
  }
}
