/** The optional value used for store lookups and for partial decoding. */
module Wrappers {
  datatype Option<+T> = None | Some(value: T)
}
