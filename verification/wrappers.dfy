/** Optional values, used for a file that may be absent and a setting that may be unset. */
module Wrappers {

  datatype Option<+T> = None | Some(value: T)
}
