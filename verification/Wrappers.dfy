/** The optional value shared by the other modules; it stands for the nullable
    pointers of the C++ sources. */
module Wrappers {
  datatype Option<+T> = None | Some(value: T)
}
