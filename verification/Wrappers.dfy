/** The result shapes the models share. */
module Wrappers {

  datatype Option<+T> = None | Some(value: T)

  /** What a call that the source may refuse with an exception comes to. */
  datatype Result<+T, +E> = Ok(value: T) | Err(error: E)
}
