/** Optional values, standing in for Go's nil pointers, nil errors and "not found" indices. */
module Wrappers {

  datatype Option<+T> = None | Some(value: T)
}
