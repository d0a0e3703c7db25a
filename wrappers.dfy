/** Option is the model of a C pointer result that may be NULL ("absent"). */
module Wrappers {
  datatype Option<+T> = None | Some(value: T)
}
