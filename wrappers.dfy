/** The optional value used where the server may have nothing: no request line, no line break. */
module Wrappers {

  datatype Option<+T> = None | Some(value: T)
}
