/** Optional values, used where the source returns `undefined` (an `Array.find` that
    finds nothing, a dialog the user dismissed). */
module Wrappers {
  datatype Option<+T> = None | Some(value: T)
}
