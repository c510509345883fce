/** Optional values, used where the source returns `false`, `null` or `undefined`. */
module Wrappers {
  datatype Option<+T> = None | Some(value: T)
}
