/** The optional value used for the NULL hostname and the NULL result. */
module Wrappers {
  datatype Option<+T> = None | Some(value: T)
}
