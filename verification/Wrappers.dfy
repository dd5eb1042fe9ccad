/** The optional value that stands for a pointer that may be null or a search that may fail. */
module Wrappers {
  datatype Option<+T> = None | Some(value: T)
}
