/** Optional values: Python's `None` or a present value. */
module Wrappers {
  datatype Option<+T> = None | Some(value: T)
}
