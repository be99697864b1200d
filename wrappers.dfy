/** Optional values: a key that may be missing from a JSON object. */
module Wrappers {

  datatype Option<T> = None | Some(value: T) {

    /** The value if present, otherwise the default (dict.get(key, default)). */
    function GetOr(default: T): T
    {
      match this
      case Some(v) => v
      case None => default
    }
  }
}
