/** The usual optional value. */
module Options {
  datatype Option<+X> = None | Some(value: X) {
    function GetOr(default: X): X {
      if Some? then value else default
    }
  }
}
