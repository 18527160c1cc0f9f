/** An optional value: an attribute that may be absent, a search that may
    find nothing. */
module Wrappers {
  datatype Option<T> = None | Some(value: T)
}
