/** An optional value, for what the program signals with `None` or a caught exception. */
module Wrappers {
  datatype Option<+T> = None | Some(value: T)
}
