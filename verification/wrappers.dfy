/** Optional values: JavaScript's `undefined` for an optional record field. */
module Wrappers {

  datatype Option<+T> = None | Some(value: T)
}
