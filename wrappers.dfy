/** The optional value used where the script relies on Python's `None`. */
module Wrappers {

  datatype Option<+T> = None | Some(value: T)
}
