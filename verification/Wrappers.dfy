/** A value that may be missing: Go's nil and `ok` results, JavaScript's null. */
module Wrappers {
  datatype Option<+T> = None | Some(value: T)
  {
    function GetOr(default: T): T { if Some? then value else default }
  }
}
