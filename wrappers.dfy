/** Optional values, used wherever the JavaScript source reads `undefined`
    or where a foreign call (URI decoding, JSON parsing) can throw. */
module Wrappers {

  datatype Option<+T> = None | Some(value: T) {

    /** The value, or `default` when there is none. */
    function GetOr(default: T): T {
      match this
      case Some(v) => v
      case None => default
    }
  }
}
