/** The usual Some/None wrapper, for lookups and calls that may find nothing. */
module Wrappers {

  datatype Option<+T> = None | Some(value: T)
}
