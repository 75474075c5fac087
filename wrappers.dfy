/** Optional values: Python's `None` next to a present value, and SQL NULL next to a stored one. */
module Wrappers {

  datatype Option<+T> = None | Some(value: T)
}
