/** Optional values: JavaScript's `null`/`undefined` results and failed lookups. */
module Wrappers {

  datatype Option<+T> = None | Some(value: T)
}
