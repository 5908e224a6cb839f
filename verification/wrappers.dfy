/** The optional value used wherever the script relies on `None` or on a caught exception. */
module Wrappers {

  /** `None` stands for Python's `None` and for an exception the script catches. */
  datatype Option<+T> = None | Some(value: T)
}
