/** Optional values: a result the C code signals by a failure flag, a NULL pointer or an unset entry. */
module Wrappers {
  datatype Option<T> = None | Some(value: T)
}
