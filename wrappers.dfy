/** Optional values, used for absent request fields and for parses that can fail. */
module Wrappers {

  datatype Option<+T> = None | Some(value: T)
}
