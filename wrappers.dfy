/** The optional-value datatype used for decoder reads and for parsing names back. */
module Wrappers {

  datatype Option<+T> = None | Some(value: T)
}
