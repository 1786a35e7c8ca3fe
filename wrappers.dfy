/** The Option datatype that the model uses for operations that may fail. */
module Wrappers {

  datatype Option<+T> = None | Some(value: T)
}
