/** The optional value returned by a conversion that may fail. */
module Wrappers {

  datatype Option<+T> = None | Some(value: T)
}
