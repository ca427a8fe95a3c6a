/** The two outcome types of the model. A conversion either yields its
    value or stops, and `:-` passes the stop on to the caller unchanged. */
module Wrappers {

  /** A value, or nothing. */
  datatype Option<+T> = None | Some(value: T) {

    /** `None` stops a `:-` chain. */
    predicate IsFailure() {
      None?
    }

    /** The stop, carried over to a chain producing another type. */
    function PropagateFailure<U>(): Option<U>
      requires None?
    {
      None
    }

    /** The value, once it is known to be there. */
    function Extract(): T
      requires Some?
    {
      value
    }
  }

  /** A computed value, or the error that ended the computation. */
  datatype Result<+T, +E> = Success(value: T) | Failure(error: E) {

    /** `Failure` stops a `:-` chain. */
    predicate IsFailure() {
      Failure?
    }

    /** The same error, carried over to a chain producing another type. */
    function PropagateFailure<U>(): Result<U, E>
      requires Failure?
    {
      Failure(error)
    }

    /** The computed value, once it is known to be there. */
    function Extract(): T
      requires Success?
    {
      value
    }
  }
}
