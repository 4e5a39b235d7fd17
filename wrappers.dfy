/** Success/failure values shared by every module of the model. */
module Wrappers {

  /** An optional value, Rust's `Option`. */
  datatype Option<+T> = None | Some(value: T)

  /** A success value or an error value, Rust's `Result`. */
  datatype Result<+T, +E> = Ok(value: T) | Err(error: E)

  /** The outcome of a Rust computation that may panic instead of returning:
      either it returned `value`, or it panicked with `message`. */
  datatype Panicking<+T> = Returned(value: T) | Panicked(message: string)
}
