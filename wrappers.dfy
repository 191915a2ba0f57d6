/** Optional values: JavaScript's NaN from parseInt, and the nullable activeId. */
module Wrappers {
  datatype Option<+T> = None | Some(value: T)
}
