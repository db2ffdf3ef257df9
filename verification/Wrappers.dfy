/** Values that may be absent, and outcomes that may be errors. */
module Wrappers {

  datatype Option<+T> = None | Some(value: T)

  datatype Result<+T, +E> = Success(value: T) | Failure(error: E) {
    predicate IsFailure() {
      Failure?
    }

    function PropagateFailure<U>(): Result<U, E>
      requires Failure?
    {
      Failure(error)
    }

    function Extract(): T
      requires Success?
    {
      value
    }
  }

  /** Turns a missing value into the given error. */
  function OrError<T, E>(o: Option<T>, error: E): Result<T, E> {
    match o
    case Some(v) => Success(v)
    case None => Failure(error)
  }
}
