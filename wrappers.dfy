/** Optional values, used where the source either finds something or leaves state alone. */
module Wrappers {
  datatype Option<T> = None | Some(value: T)
}
