/** The optional value used wherever the Python code returns either a value or `None`. */
module Wrappers {

  datatype Option<+T> = None | Some(value: T)
}
