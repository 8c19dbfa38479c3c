/** The optional value shared by the modules of this project. */
module Wrappers {
  /** A value that may be absent: Python's `None` or a failed operation. */
  datatype Option<T> = None | Some(value: T)
}
