/** The one way the other modules say that a value may be missing. */
module Wrappers {

  datatype Option<T> = None | Some(value: T)
}
