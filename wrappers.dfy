/** Optional values: `undefined` in the original code. */
module Wrappers {
  datatype Option<+T> = None | Some(value: T)
}
