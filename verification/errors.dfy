/**
  The outcomes of the calculator's operations.  Python signals failure by
  raising an exception; here an operation returns a `Result` whose failure
  carries the exception class and its exact message.
 */
module Errors {

  /** The exceptions the dispatch layer raises, with their message text. */
  datatype Error =
    | ValueError(message: string)
    | ZeroDivisionError(message: string)
      /** An input whose Python behaviour this model does not define
          (fractional exponents, zero raised to a negative power). */
    | Unmodelled(reason: string)

  datatype Option<+T> = None | Some(value: T)

  /** Either a value or the exception that was raised instead. */
  datatype Result<+T> = Success(value: T) | Failure(error: Error) {

    predicate IsFailure() {
      Failure?
    }

    function PropagateFailure<U>(): Result<U>
      requires Failure?
    {
      Failure(error)
    }

    function Extract(): T
      requires Success?
    {
      value
    }
  }
}
