/** Option and Result, the two failure-carrying types the Rust code uses. */
module Wrappers {

  datatype Option<+T> = None | Some(value: T) {
    /** The value, or `default` when there is none (Rust's `unwrap_or`). */
    function GetOr(default: T): T {
      match this
      case Some(v) => v
      case None => default
    }
  }

  /** Rust's `Result<T, E>`; a panic of the source is modelled as an `Err` where it
      is the caller's input that triggers it. */
  datatype Result<+T, +E> = Ok(value: T) | Err(error: E)
}
