/** Option and Result, the values that replace the message boxes and
    exceptions of the original program. */
module Wrappers {

  datatype Option<+T> = None | Some(value: T)

  datatype Result<+R, +E> = Ok(value: R) | Err(error: E)
}
