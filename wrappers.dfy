/** Option and Result values used for the board's "missing" and "failed" outcomes. */
module Wrappers {

  /** A value that may be absent: JavaScript's `null`/`undefined` next to a value. */
  datatype Option<+T> = None | Some(value: T)

  /** The outcome of a check that either yields a value or reports what failed. */
  datatype Result<+T, +E> = Ok(value: T) | Err(error: E)
}
