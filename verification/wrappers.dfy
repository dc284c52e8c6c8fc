/** Optional values, used for the error returns of the Go code (`value, err`). */
module Wrappers {

  datatype Option<+T> = None | Some(value: T)

}
