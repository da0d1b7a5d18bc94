/** The optional value used wherever the source returns `None` or looks up an element that may be absent. */
module Wrappers {

  datatype Option<+T> = None | Some(value: T)
}
