/** The optional value the Python code returns as `None` or a value. */
module Wrappers {

  datatype Option<+T> = None | Some(value: T)
}
