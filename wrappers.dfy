/** Optional values: the Python code's `None` and its "no data" results. */
module Wrappers {

  datatype Option<+T> = None | Some(value: T)
}
