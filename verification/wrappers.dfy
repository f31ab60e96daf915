/** The optional value used for absent request fields and missing documents. */
module Wrappers {
  datatype Option<+T> = None | Some(value: T)
}
