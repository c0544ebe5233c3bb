/** The optional value shared by the wire-format and graph modules. */
module Wrappers {
  datatype Option<T> = None | Some(value: T)
}
