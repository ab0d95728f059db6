/** The optional value used for pointers and reference parameters that may be left unset. */
module Wrappers {

  datatype Option<+T> = None | Some(value: T)
}
