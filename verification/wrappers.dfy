/** Optional values: a JavaScript `null` winner, a `NaN` from parseInt. */
module Wrappers {

  datatype Option<+T> = None | Some(value: T)
}
