/** Option and Result shared by the model. */
module Wrappers {

  /** A value that may be missing: JavaScript's `null` result of a regex match or of `translateBlock`. */
  datatype Option<+T> = None | Some(value: T)

  /** A computation that either succeeds or fails with an error, standing for a JavaScript exception. */
  datatype Result<+R, +E> = Ok(value: R) | Err(error: E)
}
