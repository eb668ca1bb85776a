/** The optional value used where the source returns a nil interface or a
    failed lookup. */
module Wrappers {

  datatype Option<+T> = None | Some(value: T)
}
