/** Failure-carrying datatypes shared by the whole model.
- Option<T>: Rust's `Option`, for helpers that cannot panic.
- Result<T, E>: Rust's `Result`, used by the identifier parsers.
- Outcome<T>: what a Rust function returning `Option<T>` can do when it may
  also panic: return `Some` (Ok), return `None` (Fail), or panic (Panic).
 */
module Wrappers {

  datatype Option<+T> = None | Some(value: T)

  datatype Result<+T, +E> = Success(value: T) | Failure(error: E)

  datatype Outcome<+T> = Ok(value: T) | Fail | Panic
}
