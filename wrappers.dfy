/** Optional values: the model's form of `null` / `undefined` results. */
module Wrappers {
  datatype Option<+T> = None | Some(value: T)
}
