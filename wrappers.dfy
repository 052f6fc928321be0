/** Option and Result, and the Python exceptions that the protocol code can
    raise, so that every error path of the library is a value of the model. */
module Wrappers {

  datatype Option<+T> = None | Some(value: T)

  /** Why a `ValueError` was raised. */
  datatype ValueErrorKind =
    | TooFewParts       // a one-word pretty command
    | InvalidZone       // zone name not in the command catalogue
    | InvalidCommand    // prefix not in the zone's command table
    | InvalidArgument   // argument neither an alias nor a number
    | InvalidLiteral    // `int()` refused a string such as "--5"
    | UnknownMessage    // no zone knows the ISCP prefix
    | ResponseTimeout   // no matching reply within five seconds

  /** The exceptions raised by the modelled code. */
  datatype Error =
    | AssertionError
    | UnicodeDecodeError
    | StructError        // `struct.pack` given a length that does not fit 32 bits
    | KeyError
    | IndexError
    | UnboundLocalError
    | AttributeError     // `.groupdict()` on a failed regular-expression match
    | ValueError(kind: ValueErrorKind)

  datatype Result<+T> = Ok(value: T) | Err(error: Error)
}
