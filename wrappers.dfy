/** Optional values: the `Optional<String>` query parameters and the optional step error. */
module Wrappers {
  datatype Option<+T> = None | Some(value: T)
}
