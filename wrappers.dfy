/** Option and Result values used across the model for absent fields and error paths. */
module Wrappers {

  /** An absent (or, in the JavaScript sources, falsy) value, or a present one. */
  datatype Option<T> = None | Some(value: T) {
    function GetOr(default: T): T {
      if Some? then value else default
    }
  }

  /** The outcome of an operation that may throw. */
  datatype Result<T, E> = Ok(value: T) | Err(error: E)
}
