/** Option and Result, the two standard Rust enums the modelled code returns. */
module Wrappers {

  /** Rust's `Option<T>`. */
  datatype Option<+T> = None | Some(value: T)

  /** Rust's `Result<T, E>`, with `Ok` spelled `Success` and `Err` spelled `Failure`. */
  datatype Result<+T, +E> = Success(value: T) | Failure(error: E)
}
