/** Failure-carrying datatypes shared by the whole model: an optional value
    (Python's `None` versus a value) and a success-or-error result (a value
    versus a raised exception or an early `sys.exit`). */
module Wrappers {

  datatype Option<+T> = None | Some(value: T) {

    /** The value, or `default` when there is none. */
    function GetOr(default: T): T {
      match this
      case Some(v) => v
      case None => default
    }
  }

  datatype Result<+R, +E> = Success(value: R) | Failure(error: E)
}
