/** The Option datatype used wherever the validator can fail without a value. */
module Wrappers {

  datatype Option<+T> = None | Some(value: T)
}
