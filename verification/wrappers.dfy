/** Failure-carrying datatypes shared by every module of the model.
    - Option<T>: a value that may be absent (a null pointer, a failed lookup).
    - Outcome<T>: the result of Rust code that may panic (`unwrap` on a
      failed conversion, `unreachable!`, an out-of-range slice); a panic is
      a value here, so every model states exactly when it happens.
    - Result<T, E>: a fallible call's value or error. */
module Wrappers {

  datatype Option<+T> = None | Some(value: T) {
    /** The contained value, or `default` when absent. */
    function GetOr(default: T): T {
      match this
      case Some(v) => v
      case None => default
    }
  }

  datatype Outcome<+T> = Ok(value: T) | Panic

  /** Rust's `Result`: a value, or the error a fallible call reported. */
  datatype Result<+T, +E> = Success(value: T) | Failure(error: E)

}
