/** Failure-carrying values used across the model: `Option` for a value that
    may be `undefined`, `Result` for an operation that may throw an `Error`
    whose `message` is the string carried by `Err`. */
module Wrappers {

  datatype Option<+T> = None | Some(value: T) {
    function GetOr(default: T): (r: T) {
      match this
      case Some(v) => v
      case None => default
    }
  }

  datatype Result<+T, +E> = Ok(value: T) | Err(error: E)
}
