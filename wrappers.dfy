/** Optional values: pandas' missing marker and Python's raised exceptions map onto None. */
module Wrappers {

  datatype Option<+T> = None | Some(value: T)
}
