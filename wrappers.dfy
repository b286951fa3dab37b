/** Result, the shape the Rust code uses for fallible calls. */
module Wrappers {

  /** `Result<R, E>` as in Rust: `Ok(value)` or `Err(error)`. */
  datatype Result<+R, +E> = Ok(value: R) | Err(error: E)
}
