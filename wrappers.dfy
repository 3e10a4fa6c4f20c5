/** Optional values: Go's nil-able pointers and "absent" results. */
module Wrappers {

  datatype Option<+T> = None | Some(value: T)
}
