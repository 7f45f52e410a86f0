/** Optional values: a JavaScript `null`, `undefined` or `NaN` where the code tests for one. */
module Wrappers {

  datatype Option<T> = None | Some(value: T)
}
