/** Failure-compatible wrappers shared by both conversion directions. */
module Results {

  /** An optional value: `undefined`/`null` versus a present value. */
  datatype Option<+T> = None | Some(value: T)

  /** A value or the error that aborted the computation (a thrown `Error`). */
  datatype Result<+T, +E> = Success(value: T) | Failure(error: E) {

    predicate IsFailure() {
      Failure?
    }

    function PropagateFailure<U>(): Result<U, E>
      requires Failure?
    {
      Failure(error)
    }

    function Extract(): T
      requires Success?
    {
      value
    }
  }
}
