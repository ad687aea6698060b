/** Optional values: a JavaScript `null`/`undefined` (or NaN where a number is expected) is `None`. */
module Wrappers {

  datatype Option<+T> = None | Some(value: T)
}
