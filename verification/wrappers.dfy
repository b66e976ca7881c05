/** Option and Result, the absent-value and error-carrying results of the
    catalog operations. Both support Dafny's `:-` failure propagation. */
module Wrappers {

  /** A value that may be absent: the model of a JavaScript `null`/`undefined` result. */
  datatype Option<+T> = None | Some(value: T) {

    predicate IsFailure() {
      None?
    }

    function PropagateFailure<U>(): Option<U>
      requires None?
    {
      None
    }

    function Extract(): T
      requires Some?
    {
      value
    }
  }

  /** Either a computed value or the error a JavaScript call would throw. */
  datatype Result<+R, +E> = Success(value: R) | Failure(error: E) {

    predicate IsFailure() {
      Failure?
    }

    function PropagateFailure<U>(): Result<U, E>
      requires Failure?
    {
      Failure(error)
    }

    function Extract(): R
      requires Success?
    {
      value
    }
  }
}
