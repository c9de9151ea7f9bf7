/** The optional value used wherever the JavaScript code yields `null` or `undefined`. */
module Wrappers {
  datatype Option<+T> = None | Some(value: T)
}
