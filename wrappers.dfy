/** Optional values: JavaScript's `null` / `undefined` results become None. */
module Wrappers {

  datatype Option<+T> = None | Some(value: T) {

    /** The Some value, or a default when None (a fallback for a value that is never falsy). */
    function GetOr(default: T): T
    {
      match this
      case Some(v) => v
      case None => default
    }
  }
}
