/** The optional value used for "attribute not set", "not a string" and "returns None". */
module Wrappers {
  datatype Option<+T> = None | Some(value: T)
}
