/** The optional result of a lookup: `get` finds a value or finds nothing. */
module Wrappers {

  datatype Option<+T> = None | Some(value: T)
}
