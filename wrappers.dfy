/** The optional value used for the source's nullable columns and `None` results. */
module Wrappers {

  datatype Option<+T> = None | Some(value: T) {

    /** The wrapped value, or `default` when there is none (Python's `d.get(key, default)`). */
    function GetOr(default: T): T
    {
      if Some? then value else default
    }
  }
}
