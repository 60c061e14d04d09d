/** Failure-carrying wrappers shared by the whole model. */
module Wrappers {

  /** A value that may be missing: `null`/`undefined` in the program. */
  datatype Option<+T> = None | Some(value: T)

  /** A computation that yields a value or raises an error. */
  datatype Result<+T, +E> = Ok(value: T) | Err(error: E)

  /** A check that passes or raises an error. */
  datatype Outcome<+E> = Pass | Fail(error: E)
}
