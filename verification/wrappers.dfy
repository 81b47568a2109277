/** The optional value used for pandas' missing cells and for Python's `None` results. */
module Wrappers {
  datatype Option<+T> = None | Some(value: T)
}
