/** The optional value used wherever the C++ code uses a null pointer or a missing case. */
module Wrappers {

  datatype Option<+T> = None | Some(value: T)
}
