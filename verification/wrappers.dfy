/** Option and Result, the two failure-carrying shapes the contract uses:
    `Option` for optional call arguments and possibly-missing storage slots,
    `Result` for calls that either succeed with a value or fail with an error. */
module Wrappers {

  datatype Option<+T> = None | Some(value: T) {

    /** The carried value, or `default` when there is none (Rust's `unwrap_or`). */
    function GetOr(default: T): T {
      match this
      case Some(v) => v
      case None => default
    }
  }

  datatype Result<+T, +E> = Ok(value: T) | Err(error: E)
}
