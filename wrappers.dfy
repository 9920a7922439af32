/** Optional values, for lookups and parses that may come back empty. */
module Wrappers {
  datatype Option<T> = None | Some(value: T)
}
