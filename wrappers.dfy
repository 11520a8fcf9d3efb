/** Optional values, used where the JavaScript code has `null` or a missing match. */
module Wrappers {

  datatype Option<+T> = None | Some(value: T)
}
