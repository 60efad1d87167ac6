/** Optional values, used for fallible conversions and partial decoding. */
module Wrappers {

  datatype Option<+T> = None | Some(value: T)
}
