/** The optional value shared by the decoders. */
module Wrappers {
  datatype Option<T> = None | Some(value: T)
}
