/** Optional values and results, with the Python exceptions the searcher can raise. */
module Wrappers {

  datatype Option<T> = None | Some(value: T) {

    /** `d.get(k, default)` style access: the value, or the default when absent. */
    function GetOr(default: T): T {
      match this
      case Some(v) => v
      case None => default
    }
  }

  /** The exceptions that escape the searcher's core. */
  datatype Exception = TypeError | KeyError | IndexError

  datatype Result<T> = Ok(value: T) | Err(error: Exception)
}
