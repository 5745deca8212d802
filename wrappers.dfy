/** The optional value, used for what Go leaves nil and for the outcome of a decoder that may fail. */
module Wrappers {
  datatype Option<+T> = None | Some(value: T)
}
