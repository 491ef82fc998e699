/** Optional values: the `null` / `undefined` of the original code. */
module Wrappers {

  datatype Option<+T> = None | Some(value: T)

}
