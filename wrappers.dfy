/** The `undefined` a JavaScript function returns in place of a value. */
module Wrappers {
  datatype Option<+T> = None | Some(value: T)
}
