/** Optional values, used where the C code has a NULL pointer. */
module Wrappers {

  datatype Option<+T> = None | Some(value: T)
}
