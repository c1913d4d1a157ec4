/** Optional values and results shared by the rest of the model. */
module Wrappers {

  /** An optional value: Python's `None` versus a present value. */
  datatype Option<+T> = None | Some(value: T) {
    function GetOr(default: T): T {
      match this
      case Some(v) => v
      case None => default
    }
  }

  /** A computation that either succeeds or raises an exception carrying a description. */
  datatype Result<+R> = Success(value: R) | Failure(error: string)
}
