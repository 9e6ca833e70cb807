/** An optional value, for nullable columns and for results that may be missing. */
module Wrappers {
  datatype Option<+T> = None | Some(value: T) {
    /** The value held, or `other` when there is none. */
    function Or(other: Option<T>): Option<T> {
      if Some? then this else other
    }
  }
}
