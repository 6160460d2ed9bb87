/** Option and Result, used for the null pointers, `npos` results and thrown errors of the system. */
module Wrappers {

  datatype Option<+T> = None | Some(value: T)

  datatype Result<+R, +E> = Ok(value: R) | Err(error: E)
}
