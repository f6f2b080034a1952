/** The optional value used where the controller may find nothing or receive nothing. */
module Wrappers {

  datatype Option<+T> = None | Some(value: T)
}
