/** Optional values, used wherever the source raises or returns nothing. */
module Wrappers {

  datatype Option<+T> = None | Some(value: T)
}
