/** The usual optional-value datatype: a regular-expression match that may fail. */
module Wrappers {

  datatype Option<+T> = None | Some(value: T)
}
