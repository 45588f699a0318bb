/** Outcomes of lookups and of operations that can raise. */
module Wrappers {

  /** A value that may be absent (Python `None`). */
  datatype Option<+T> = None | Some(value: T)

  /** A value, or the exception that was raised instead. */
  datatype Result<+T, +E> = Ok(value: T) | Err(error: E)
}
