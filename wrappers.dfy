/** The optional value used for nil-able slots and results. */
module Wrappers {
  datatype Option<+T> = None | Some(value: T)
}
