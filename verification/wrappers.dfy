/** The optional value used wherever the original code has `undefined` or `null`. */
module Wrappers {

  datatype Option<+T> = None | Some(value: T)
}
