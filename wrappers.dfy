/** The optional value returned by the decoders: None stands for the
    failure that makes the C code return false or undefined. */
module Wrappers {
  datatype Option<T> = None | Some(value: T)
}
