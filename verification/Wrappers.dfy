/** The optional value the components share. */
module Wrappers {

  datatype Option<+T> = None | Some(value: T)
}
