/** Types that several components share. */
module Basics {
  datatype Option<T> = None | Some(value: T) {
    function GetOr(default: T): T {
      if Some? then value else default
    }
  }

  /** A digest, as a number. */
  type Hash = nat
}
