/** The optional value used by the placement and caret bookkeeping. */
module Wrappers {
  datatype Option<+T> = None | Some(value: T)
}
