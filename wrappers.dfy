/** The optional-value datatype used for Go's nil results and for "no error". */
module Wrappers {
  datatype Option<+T> = None | Some(value: T)
}
