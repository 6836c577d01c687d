/** Optional values: JavaScript's `undefined` for a field, a lookup or a request parameter. */
module Wrappers {

  datatype Option<+T> = None | Some(value: T)
}
