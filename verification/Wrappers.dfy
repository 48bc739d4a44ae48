/** Optional values, as the source's `Optional[...]` and `None` results. */
module Wrappers {

  datatype Option<+T> = None | Some(value: T)
}
