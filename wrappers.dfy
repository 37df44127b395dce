/** Optional values, used where the C++ code returns a reserved sentinel. */
module Wrappers {

  datatype Option<+T> = None | Some(value: T)
}
