/** The optional value used in place of a null pointer or a missing match. */
module Wrappers {
  datatype Option<+T> = None | Some(value: T)
}
