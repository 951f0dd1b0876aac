/** Optional values: Python's `None` versus a value. */
module Wrappers {
  datatype Option<+T> = None | Some(value: T)
}
