/** Optional values, used for "a failure may or may not happen, and if it does, where". */
module Wrappers {

  datatype Option<+T> = None | Some(value: T)
}
