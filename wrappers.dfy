/** Optional values, used where the source returns `null` for "nothing". */
module Wrappers {
  datatype Option<+T> = None | Some(value: T)
}
