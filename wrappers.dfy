/** Option and Result, the two wrapper types the Rust code uses for absent values and failures. */
module Wrappers {

  /** `Option<T>`: `None` is "absent", which the message model keeps distinct from an empty list. */
  datatype Option<+T> = None | Some(value: T) {

    /** The wrapped value, or `default` when absent (Rust's `unwrap_or`). */
    function GetOr(default: T): T {
      match this
      case Some(v) => v
      case None => default
    }

    /** This value if present, else `other` (Rust's `or`). */
    function Or(other: Option<T>): Option<T> {
      if Some? then this else other
    }
  }

  /** `Result<T, E>`: Rust's `Result`, the error carrying the context the code attaches. */
  datatype Result<+T, +E> = Ok(value: T) | Err(error: E)
}
