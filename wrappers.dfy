/** Optional values: a Go pointer or interface that may be nil, or a parse that may fail. */
module Wrappers {
  datatype Option<+T> = None | Some(value: T)
}
