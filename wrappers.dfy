/** Option and Result values, and the exceptions of the contact manager as data. */
module Wrappers {

  datatype Option<+T> = None | Some(value: T)

  datatype Result<+R, +E> = Success(value: R) | Failure(error: E)
}

/**
 * The Python exceptions the contact manager raises or catches, as values.
 * Each carries the text that `str(e)` gives for it.
 */
module Errors {

  datatype Error =
    | ValueError(message: string)
    | KeyError
    | IndexError(message: string)
    | TypeError(message: string)
    | ZeroDivisionError(message: string)

  /** How a statement that may raise ends: normally, or with an exception. */
  datatype Outcome = Done | Raised(error: Error)
}
