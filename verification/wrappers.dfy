/** The optional value used where the source returns `None`, `undefined` or `null`. */
module Wrappers {

  datatype Option<+T> = None | Some(value: T)
}
