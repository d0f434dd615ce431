/** Optional values: a DOM attribute that may be absent, a timer handle that may be null. */
module Wrappers {
  datatype Option<T> = None | Some(value: T)
}
