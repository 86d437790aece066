/** Optional values, standing for JavaScript's `null` / `undefined` where the scripts use them. */
module Wrappers {

  datatype Option<+T> = None | Some(value: T)
}
