/** The Option and Result datatypes used by the handler model. */
module Wrappers {

  /** An optional value: the regex either matched (with its group) or it did not. */
  datatype Option<+T> = None | Some(value: T)

  /** A value or an error: the handler either returns a string or raises. */
  datatype Result<+T, +E> = Ok(value: T) | Err(error: E)
}
