/** The optional-value datatype used for "not applicable" results. */
module Wrappers {
  datatype Option<+T> = None | Some(value: T)
}
