/** Failure-carrying and nullable values used by the credential model. */
module Wrappers {

  /** A reference that may be null, as the .NET strings and collections
      the behaviour reads may be. */
  datatype Nullable<+T> = Null | NonNull(value: T)

  /** The outcome of a call that either returns normally with a value or
      throws the given exception. */
  datatype Result<+R, +E> = Success(value: R) | Failure(error: E) {

    predicate IsFailure() {
      Failure?
    }

    function PropagateFailure<U>(): Result<U, E>
      requires Failure?
    {
      Failure(error)
    }

    function Extract(): R
      requires Success?
    {
      value
    }
  }
}
