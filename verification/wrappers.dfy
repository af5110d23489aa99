/** Optional values and outcomes shared by the rest of the model.
    - Option<T> stands for a value that may be absent: a missing dictionary
      entry, a NaN cell of a price series, an unreadable state file.
    - Result<T, E> stands for a computation that either returns or raises. */
module Wrappers {

  datatype Option<+T> = None | Some(value: T) {

    /** The encapsulated value, or `default` when absent (Python's `dict.get(k, default)`). */
    function GetOr(default: T): T {
      match this
      case Some(v) => v
      case None => default
    }
  }

  datatype Result<+T, +E> = Success(value: T) | Failure(error: E)
}
