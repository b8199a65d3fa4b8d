/** Result and error values for the operations of the "current sheet" layer.
    Every exception the layer raises is modelled as an `Error` value. */
module Outcomes {

  datatype Option<+T> = None | Some(value: T)

  /** The exceptions the layer raises: `ValueError` and `AssertionError` carry
      the source's own message; `AttributeError` is what dereferencing the
      missing current sheet (`None`) raises; `IndexError` is an out-of-range
      list subscript. */
  datatype Error =
    | ValueError(msg: string)
    | AssertionError(msg: string)
    | AttributeError
    | IndexError

  /** A value or the exception raised instead of returning it. */
  datatype Result<+T> = Ok(value: T) | Err(error: Error)

  /** An operation that returns nothing: it either completes or raises. */
  datatype Outcome = Pass | Fail(error: Error)
}
