/** Option and Result, the two shapes in which the modelled code reports absence and failure. */
module Wrappers {
  datatype Option<+T> = None | Some(value: T)

  datatype Result<+T, +E> = Ok(value: T) | Err(error: E)
}
