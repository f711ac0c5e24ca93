/** The optional value returned where the Python code returns `None` or a hit. */
module Wrappers {

  datatype Option<+T> = None | Some(value: T)
}
