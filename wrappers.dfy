/** Option and Result values shared by the other modules. */
module Wrappers {

  /** A value that may be absent, as Python's `None`. */
  datatype Option<+T> = None | Some(value: T) {

    /** The value, or `default` when absent: Python's `x or default` where `default` is the only other falsy value, as for `or ""` and `or []`. */
    function GetOr(default: T): T {
      match this
      case Some(v) => v
      case None => default
    }
  }

  /** The outcome of a run that may raise. */
  datatype Result<+R, +E> = Success(value: R) | Failure(error: E)
}
