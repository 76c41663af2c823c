/** Option and Outcome values for lookups that can miss and operations that can fail. */
module Wrappers {

  datatype Option<+T> = None | Some(value: T) {
    /** The carried value, or `default` when there is none (Python's `x or default`). */
    function GetOr(default: T): T {
      if Some? then value else default
    }
  }

  /** The result of an operation that either succeeds with a value or raises an error. */
  datatype Outcome<+T, +E> = Ok(value: T) | Err(error: E)
}
