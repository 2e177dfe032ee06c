/** Optional values: a parsed number that may be NaN, a DOM lookup that may find nothing. */
module Wrappers {

  datatype Option<+T> = None | Some(value: T)
}
