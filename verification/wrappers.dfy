/** The optional value used throughout the model: a lookup that may find
    nothing, a command that may carry no string. */
module Wrappers {

  datatype Option<+T> = None | Some(value: T)
}
