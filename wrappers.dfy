/** Optional values and results, shared by every module of the model. */
module Wrappers {

  /** A value that may be missing: a SQL NULL, an absent map key, a `find` that matched nothing. */
  datatype Option<+T> = None | Some(value: T) {
    function GetOr(default: T): T {
      match this
      case Some(v) => v
      case None => default
    }
  }

  /** The outcome of an operation that may fail with a message (a thrown `Error`). */
  datatype Result<+R> = Success(value: R) | Failure(error: string)
}
