/** The optional values of the session: Python's `None` or a value. */
module Wrappers {

  datatype Option<+T> = None | Some(value: T)
}
