/** The optional value used throughout the model for "no match" and for JavaScript's null/undefined. */
module Wrappers {

  datatype Option<+T> = None | Some(value: T)
}
