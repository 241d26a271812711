/** The optional value returned by the payload decoder. */
module Wrappers {
  datatype Option<+T> = None | Some(value: T)
}
