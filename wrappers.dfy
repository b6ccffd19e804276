/** Optional values: `None` stands for Go's nil (no error, no callback). */
module Wrappers {
  datatype Option<+T> = None | Some(value: T)
}
