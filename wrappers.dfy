/** Option and Result, used for the source's missing values, KeyErrors and TypeErrors. */
module Wrappers {

  datatype Option<+T> = None | Some(value: T)

  datatype Result<+R, +E> = Ok(value: R) | Err(error: E)
}
