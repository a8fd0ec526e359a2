/** Optional values and outcomes that may fail, as the Python code uses None and exceptions. */
module Wrappers {

  /** A value that may be absent (Python's None). */
  datatype Option<+T> = None | Some(value: T) {

    /** The value, or `default` when absent (Python's `dict.get(key, default)`). */
    function GetOr(default: T): T {
      match this
      case Some(v) => v
      case None => default
    }
  }

  /** The outcome of a step that may raise: its value, or the text `str(e)` of the exception. */
  datatype Result<+R> = Success(value: R) | Failure(error: string)
}
