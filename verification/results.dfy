/** Failure-compatible wrappers shared by the whole model. */
module Results {

  /** An optional value: `None` stands for a Python `ValueError` that the
      caller turns into a failure of its own. */
  datatype Option<T> = None | Some(value: T)

  /** Either a computed value or the reason the computation raised. */
  datatype Result<T, E> = Success(value: T) | Failure(error: E) {

    predicate IsFailure() {
      Failure?
    }

    function PropagateFailure<U>(): Result<U, E>
      requires Failure?
    {
      Failure(error)
    }

    function Extract(): T
      requires Success?
    {
      value
    }
  }
}
