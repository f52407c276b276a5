/** Optional values: JavaScript's `null` and the "no value" cases of the store. */
module Wrappers {

  datatype Option<+T> = None | Some(value: T)
}
