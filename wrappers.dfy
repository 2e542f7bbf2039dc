/** Optional values: a possibly-NULL pointer of the source is an `Option`. */
module Wrappers {
  datatype Option<+T> = None | Some(value: T)
}
