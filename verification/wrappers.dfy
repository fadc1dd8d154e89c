/** Option and Result, shared by the monitor store and the account rules. */
module Wrappers {

  /** A value that may be absent: a nullable column or an optional DTO field. */
  datatype Option<+T> = None | Some(value: T) {
    function GetOr(default: T): T {
      match this
      case Some(v) => v
      case None => default
    }
  }

  /** The outcome of a service call: a value, or the exception it throws. */
  datatype Result<+T, +E> = Ok(value: T) | Err(error: E)
}
