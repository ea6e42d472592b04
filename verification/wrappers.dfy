/** Optional values, for collaborators that can fail and lookups that can miss. */
module Wrappers {

  /** The conventional optional value, used for fallible collaborators. */
  datatype Option<+T> = None | Some(value: T) {
    function GetOr(default: T): T {
      match this
      case Some(v) => v
      case None => default
    }
  }
}
