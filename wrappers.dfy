/** Option and Result, and the Python exceptions the modelled code can raise. */
module Wrappers {

  /** Python's `None` or a value. */
  datatype Option<+T> = None | Some(value: T)

  /** A value, or the exception that evaluating it raises. */
  datatype Result<+T, +E> = Ok(value: T) | Err(error: E)

  /** The built-in exceptions raised on the modelled paths. */
  datatype Exception =
    | TypeError            // `int & None`, `save` with data that is neither False nor a dict
    | OverflowError        // `int.to_bytes(5, "little")` of a value that does not fit
    | AttributeError       // `None.encode()`
    | IndexError           // `readers[0]` of an empty list
    | NotImplementedError  // an unsupported reader configuration
}
