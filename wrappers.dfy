/** Optional values: Python's `Optional[str]` (a value or `None`). */
module Wrappers {

  datatype Option<+T> = None | Some(value: T)
}
