/** Failure-compatible wrappers shared by the other modules. */
module Wrappers {
  /** Rust's `Option<T>`. */
  datatype Option<+T> = None | Some(value: T)

  /** Rust's `Result<(), E>`: success carries no value. */
  datatype Outcome<+E> = Pass | Fail(error: E)
}
