/** Option and Result, the two shapes the store's interface returns. */
module Wrappers {

  /** An optional value: Rust's `Option<T>`. */
  datatype Option<+T> = None | Some(value: T)

  /** A value or an error: Rust's `Result<T, E>`. */
  datatype Result<+T, +E> = Success(value: T) | Failure(error: E)
}
