/** The optional value used for "zero or one result" throughout the model. */
module Wrappers {

  datatype Option<+T> = None | Some(value: T)
}
