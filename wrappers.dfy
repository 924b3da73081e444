/** Failure-carrying result types shared by every module of the model. */
module Wrappers {

  /** Rust's `Option<T>`. */
  datatype Option<+T> = None | Some(value: T)

  /** Rust's `Result<T, E>`. */
  datatype Result<+T, +E> = Ok(value: T) | Err(error: E)

  /** What a Rust call does when it may panic (`todo!()`, `expect`, an out-of-bounds
      `Vec::remove`): it either returns a value or panics. */
  datatype Outcome<+T> = Returns(value: T) | Panics
}
