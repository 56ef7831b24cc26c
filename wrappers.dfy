/** The optional value used for "first match" and "first row" results. */
module Wrappers {
  datatype Option<T> = None | Some(value: T)
}
