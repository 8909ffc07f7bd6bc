/** Optional values, used where the modelled code may have nothing to return. */
module Wrappers {
  datatype Option<+T> = None | Some(value: T)
}
