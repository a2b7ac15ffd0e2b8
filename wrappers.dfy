/** Optional values: the model's stand-in for JavaScript's `undefined`, and for
    computations that can throw (a failed URL parse aborts a whole build). */
module Wrappers {

  datatype Option<+T> = None | Some(value: T) {

    /** The value, or `default` when there is none (JavaScript's `x ?? d`). */
    function GetOr(default: T): T {
      match this
      case Some(v) => v
      case None => default
    }
  }
}
