/** Option and Result, used for the optional type of an expression and for the
    exceptions the source throws (IllegalArgumentException, IllegalStateException,
    UnsupportedOperationException), which become `Err` values carrying the message. */
module Wrappers {

  datatype Option<+T> = None | Some(value: T)

  datatype Result<+T> = Ok(value: T) | Err(message: string)
}
