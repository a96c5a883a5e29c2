/** An optional value: a missing saved preference, or no results to show. */
module Wrappers {
  datatype Option<T> = None | Some(value: T)
}
