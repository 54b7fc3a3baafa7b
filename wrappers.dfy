/** Optional values and error outcomes shared by the modules of this model. */
module Wrappers {

  /** A value that may be absent: Java's `null` where the source uses it as "no value". */
  datatype Option<+T> = None | Some(value: T)

  /** The outcome of an operation that may fail with an exception in the source. */
  datatype Result<+T, +E> = Success(value: T) | Failure(error: E) {

    predicate IsFailure() {
      Failure?
    }

    function PropagateFailure<U>(): Result<U, E>
      requires Failure?
    {
      Failure(error)
    }

    function Extract(): T
      requires Success?
    {
      value
    }
  }
}
