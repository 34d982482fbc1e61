/** Optional values: a parse that fails, a file that does not exist. */
module Wrappers {

  datatype Option<+T> = None | Some(value: T)
}
