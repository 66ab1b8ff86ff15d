/** Small failure-compatible wrappers shared by every module of the model. */
module Wrappers {

  /** An optional value: `undefined` / a missing property in the source. */
  datatype Option<+T> = None | Some(value: T) {
    function GetOr(default: T): T {
      match this
      case Some(v) => v
      case None => default
    }
  }

  /** The value of an operation that either returns normally or throws. */
  datatype Result<+R, +E> = Ok(value: R) | Err(error: E)
}
