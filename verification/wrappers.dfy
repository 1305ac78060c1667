/** A value that may be absent. The model uses it where the source has
    `undefined`: the result of popping an empty queue, and a constructor
    parameter the caller left out. */
module Wrappers {

  datatype Option<+T> = None | Some(value: T) {

    /** The value if present, otherwise the fallback `d`; this is how an
        omitted parameter with a default `{ x = d }` reads. */
    function GetOr(d: T): (r: T)
      ensures Some? ==> r == value
      ensures None? ==> r == d
    {
      if Some? then value else d
    }
  }
}
