/** Option and Result, the two failure-carrying wrappers the macro's Rust code uses. */
module Outcomes {

  datatype Option<+T> = None | Some(value: T)

  /** `Result<T, E>` of Rust: `Ok(value)` or `Err(error)`. */
  datatype Result<+T, +E> = Ok(value: T) | Err(error: E)
}
