/** The optional value used wherever the C code returns or stores a possibly-NULL pointer. */
module Wrappers {

  datatype Option<+T> = None | Some(value: T)
}
