/** The optional value used wherever the source returns None or raises a recoverable error. */
module Wrappers {

  datatype Option<+T> = None | Some(value: T)
}
