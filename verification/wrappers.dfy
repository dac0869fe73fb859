/** Optional values: a JavaScript `null` or `T | null`. */
module Wrappers {

  datatype Option<+T> = None | Some(value: T)
}
