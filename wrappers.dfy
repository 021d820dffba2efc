/** An optional value, for the regex searches that may find nothing. */
module Wrappers {
  datatype Option<T> = None | Some(value: T)
}
