/** The Option type used wherever the C++ code returns a null pointer or `std::string::npos`. */
module Wrappers {

  datatype Option<+T> = None | Some(value: T)

}
