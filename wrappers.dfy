/** Failure-compatible datatypes shared by the model, and the Python
    exceptions that the modelled code can raise. */
module Wrappers {

  /** Python's `None` or a value. */
  datatype Option<+T> = None | Some(value: T)

  /** A value, or the exception the Python code raises instead. */
  datatype Result<+R, +E> = Success(value: R) | Failure(error: E) {
    predicate IsFailure() { Failure? }

    function PropagateFailure<U>(): Result<U, E>
      requires Failure?
    {
      Failure(error)
    }

    function Extract(): R
      requires Success?
    {
      value
    }
  }

  /** The built-in exceptions reachable in the modelled code. */
  datatype PyError =
    | KeyError           // a missing dictionary key
    | IndexError         // a list index past the end
    | ValueError         // a tuple unpacking of the wrong arity
    | UnboundLocalError  // a local read before any assignment
}
