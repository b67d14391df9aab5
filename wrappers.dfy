/** Optional values: a JavaScript `null`/`undefined` handle is `None`. */
module Wrappers {

  datatype Option<+T> = None | Some(value: T)
}
