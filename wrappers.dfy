/** The optional value used where the source yields `null` or a selector fails. */
module Wrappers {

  datatype Option<+T> = None | Some(value: T)
}
