/** Optional values: `None` stands for Python's `None` and for "no result". */
module Wrappers {
  datatype Option<+T> = None | Some(value: T)
}
