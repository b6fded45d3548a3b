/** The optional value used for dictionary lookups and for a file that may be absent. */
module Wrappers {
  datatype Option<+T> = None | Some(value: T)
}
