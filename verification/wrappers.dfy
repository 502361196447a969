/** The optional value used wherever the source returns `None` or raises on a
    missing element. */
module Wrappers {

  datatype Option<+T> = None | Some(value: T)
}
