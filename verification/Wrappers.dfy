/** Optional values, standing in for TypeScript's `T | undefined`. */
module Wrappers {

  datatype Option<+T> = None | Some(value: T) {

    /** The wrapped value, or `default` when absent (the `??` operator). */
    function GetOr(default: T): T {
      match this
      case Some(v) => v
      case None => default
    }

    /** `this`, or `other` when absent: a later spread layer that may be missing. */
    function Or(other: Option<T>): Option<T> {
      if Some? then this else other
    }
  }
}
