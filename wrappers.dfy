/** Optional values: a saved layout that may be absent or unreadable, the active tab id. */
module Wrappers {
  datatype Option<+T> = None | Some(value: T)
}
