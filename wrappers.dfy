/** Optional values, used for Go's "comma ok" map lookups and nil errors. */
module Wrappers {

  datatype Option<+T> = None | Some(value: T)
}
