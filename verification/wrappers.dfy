/** Optional values: the Go code signals "nothing found" with a boolean beside a zero value. */
module Wrappers {

  datatype Option<+T> = None | Some(value: T)
}
