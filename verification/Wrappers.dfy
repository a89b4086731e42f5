/** Optional values: Go's nil pointers, and results that may be missing. */
module Wrappers {

  datatype Option<+T> = None | Some(value: T)
}
