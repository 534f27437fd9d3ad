/** Optional values: Python's `Optional[...]`, where `None` is a value of its own. */
module Wrappers {

  datatype Option<+T> = None | Some(value: T)
}
