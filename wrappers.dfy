/** Optional values, for the nulls and the exceptions of the source. */
module Wrappers {
  datatype Option<+T> = None | Some(value: T)
}
