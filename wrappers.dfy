/** Option and Result, the two failure-compatible shapes the model needs. */
module Wrappers {

  datatype Option<+T> = None | Some(value: T)

  /** A Rust `Result`: `Failure` also stands for a panic, which aborts the run. */
  datatype Result<+R, +E> = Success(value: R) | Failure(error: E)
}
