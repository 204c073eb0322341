/** Optional values, for Go's nil pointers and for inputs that may fail to parse. */
module Wrappers {

  datatype Option<+T> = None | Some(value: T)
}
