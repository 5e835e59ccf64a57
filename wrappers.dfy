/** The optional value used for lookups and replies. */
module Wrappers {

  datatype Option<+T> = None | Some(value: T)
}
