/** The optional value used wherever Go returns a nil-able result or error. */
module Wrappers {

  datatype Option<+T> = None | Some(value: T)
}
