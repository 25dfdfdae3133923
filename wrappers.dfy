/** The optional value used for nullable pointers of the source. */
module Wrappers {

  datatype Option<+T> = None | Some(value: T)
}
