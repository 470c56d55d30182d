/** Failure-carrying return types shared by the value objects. */
module Wrappers {

  /** Rust's `Result<T, E>`: either the parsed value or the error value. */
  datatype Result<+T, +E> = Ok(value: T) | Err(error: E)

  /** Rust's `Option<T>`. */
  datatype Option<+T> = None | Some(value: T)
}
