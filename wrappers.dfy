/** Option and Result values shared by every module of the model. */
module Wrappers {

  /** An optional value: Rust's `Option`, Python's `None`-or-value, TypeScript's `T | undefined`. */
  datatype Option<+T> = None | Some(value: T)

  /** The outcome of an operation that can fail: Rust's `Result`, a Python exception. */
  datatype Result<+T, +E> = Ok(value: T) | Err(error: E)
}
