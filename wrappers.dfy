/** Optional values: Python's `Optional[...]`, with `None` for "no value". */
module Wrappers {

  datatype Option<+T> = None | Some(value: T)

}
