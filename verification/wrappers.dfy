/** Optional values, shared by the client and the server models. */
module Wrappers {

  /** A value that may be absent: a missing dictionary key, an optional field. */
  datatype Option<+T> = None | Some(value: T) {

    /** The carried value, or `default` when there is none (Python's `dict.get(key, default)`). */
    function GetOr(default: T): T {
      match this
      case Some(v) => v
      case None => default
    }
  }
}
