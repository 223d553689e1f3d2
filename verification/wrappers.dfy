/** Optional values, standing in for Python's `None`, and sequence helpers shared by the model. */
module Wrappers {

  /** The last element, `s[-1]`. */
  function Last<T>(s: seq<T>): T
    requires |s| > 0
  {
    s[|s| - 1]
  }

  datatype Option<+T> = None | Some(value: T) {

    /** The wrapped value, or `default` when there is none (`dict.get(k, default)`). */
    function GetOr(default: T): T {
      match this
      case Some(v) => v
      case None => default
    }
  }
}
