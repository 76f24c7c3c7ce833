/** Failure-carrying results shared by every module of the model. */
module Wrappers {

  datatype Option<T> = None | Some(value: T)

  /** The Python exceptions the modelled code raises. */
  datatype PyError =
    | ValueError
    | TypeError
    | IndexError
    | ZeroDivisionError
    | NotImplementedError
    | AssertionError

  /** A value, or the exception raised instead of returning one. */
  datatype Result<T> = Ok(value: T) | Err(error: PyError)

  /** Completion of an operation that returns nothing, or the exception it raised. */
  datatype Outcome = Pass | Fail(error: PyError)

  function Min(a: int, b: int): int { if a <= b then a else b }
}
