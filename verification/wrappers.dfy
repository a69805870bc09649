/** The optional value used wherever the source returns `null` or `None`. */
module Wrappers {

  datatype Option<+T> = None | Some(value: T)
}
