/** The optional value of the source's `Option<String>` fields. */
module Wrappers {

  datatype Option<+T> = None | Some(value: T)
}
