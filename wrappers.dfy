/** Failure-carrying results for the Python exceptions the modelled code raises. */
module Wrappers {

  datatype Option<T> = None | Some(value: T)

  /** The exceptions the modelled code can raise. `Raised` is a bare `Exception(message)`. */
  datatype Error =
    | IndexError
    | ValueError
    | KeyError
    | TypeError
    | AttributeError
    | ZeroDivisionError
    | OverflowError
    | Raised(message: string)

  datatype Result<T> = Ok(value: T) | Err(error: Error) {

    predicate IsFailure() {
      Err?
    }

    function PropagateFailure<U>(): Result<U>
      requires Err?
    {
      Err(error)
    }

    function Extract(): T
      requires Ok?
    {
      value
    }
  }
}
