/** Shared value types. */
module Prelude {

  datatype Option<+T> = None | Some(value: T) {
    function GetOr(default: T): T {
      if Some? then value else default
    }

    /** This value unless there is none, else the other. */
    function OrElse(other: Option<T>): Option<T> {
      if Some? then this else other
    }
  }
}
