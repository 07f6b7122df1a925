/** The optional value used for absent headers and absent error texts. */
module Wrappers {
  datatype Option<+T> = None | Some(value: T)
}
