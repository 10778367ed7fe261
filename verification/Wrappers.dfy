/** The optional result used wherever the C code answers with a null pointer. */
module Wrappers {
  datatype Option<+T> = None | Some(value: T)
}
