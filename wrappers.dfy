/** Option and Result values standing in for Python's `None` and for the
    exceptions the modelled code lets escape. */
module Wrappers {

  datatype Option<+T> = None | Some(value: T)

  /** The Python exceptions that can escape from the modelled code. */
  datatype PyError =
    | ValueError      // a tuple unpack of the wrong length, or `int()` of a non-numeral
    | IndexError      // a list subscript past the end
    | AttributeError  // an attribute read on `None`

  datatype Result<+T> = Ok(value: T) | Err(error: PyError)
}
