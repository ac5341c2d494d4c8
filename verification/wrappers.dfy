/** Option and Result: the absent YAML key and the exception path of the item updater. */
module Wrappers {

  /** A value that may be missing, as a dictionary `get` without a default returns it. */
  datatype Option<+T> = None | Some(value: T) {

    /** The wrapped value, or `default` when there is none. */
    function GetOr(default: T): T {
      match this
      case Some(v) => v
      case None => default
    }
  }

  /** The outcome of a step that either completes or raises an error. */
  datatype Result<+R, +E> = Success(value: R) | Failure(error: E)
}
