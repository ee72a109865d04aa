/** The optional value used for absent arguments and for decoders that can fail. */
module Wrappers {

  datatype Option<+T> = None | Some(value: T)
}
