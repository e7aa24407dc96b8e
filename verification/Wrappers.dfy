/** The optional values the C++ code writes as std::optional. */
module Wrappers {

  datatype Option<+T> = None | Some(value: T)
}
