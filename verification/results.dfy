/** Failure-compatible wrappers: the Go `(value, error)` pair becomes a
    `Result`, and the `(value, ok)` pair of a lookup or a parse becomes an
    `Option`. Both work with Dafny's `:-` operator. */
module Results {

  datatype Option<+T> = None | Some(value: T)

  datatype Result<+T, +E> = Success(value: T) | Failure(error: E) {

    predicate IsFailure() {
      Failure?
    }

    function PropagateFailure<U>(): Result<U, E>
      requires Failure?
    {
      Failure(error)
    }

    function Extract(): T
      requires Success?
    {
      value
    }
  }
}
