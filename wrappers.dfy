/** Optional values: `None` stands for a Java `null` or for an exception that a caller catches. */
module Wrappers {
  datatype Option<T> = None | Some(value: T)
}
