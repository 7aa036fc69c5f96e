/** Optional values and results with an error, shared by every module of the model. */
module Wrappers {

  /** A value that may be missing: `null`/`undefined` in TypeScript, `Option` in Rust. */
  datatype Option<+T> = None | Some(value: T)

  /** The outcome of an operation that can fail: Rust's `Result`, `ts-results`' `Ok`/`Err`. */
  datatype Result<+T, +E> = Ok(value: T) | Err(error: E)
}
