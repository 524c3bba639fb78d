/** Option type standing in for the NULL returns and "not found" results of the C++ code. */
module Wrappers {
  datatype Option<+T> = None | Some(value: T)
}
