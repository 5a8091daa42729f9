/** Option and Result, used for the values the source leaves unset (None) and for the
    operations that raise an exception in the source. */
module Wrappers {

  datatype Option<+T> = None | Some(value: T)

  datatype Result<+T, +E> = Ok(value: T) | Err(error: E)
}
