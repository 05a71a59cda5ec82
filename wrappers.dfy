/** Optional values, used wherever the program tests for a missing value. */
module Wrappers {

  datatype Option<+T> = None | Some(value: T)

}
