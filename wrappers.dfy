/** The optional value used for missing keys and absent reply fields. */
module Wrappers {
  datatype Option<+T> = None | Some(value: T)
}
