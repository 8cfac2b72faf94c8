/** Optional values: a missing CSV cell (pandas NaN), a missing JSON key, a Python `None`. */
module Wrappers {

  datatype Option<+T> = None | Some(value: T)
}
