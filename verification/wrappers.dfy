/** Optional values and results with an error, for the program's optional
    requests and its error returns. */
module Wrappers {

  datatype Option<+T> = None | Some(value: T) {

    /** The value if present, the default otherwise */
    function GetOr(default: T): T {
      match this
      case Some(v) => v
      case None => default
    }
  }

  /** The outcome of an operation that returns a value or an error */
  datatype Result<+R, +E> = Success(value: R) | Failure(error: E)
}
