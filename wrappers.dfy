/** The optional value used for nullable pointers and absent loaders. */
module Wrappers {

  datatype Option<+T> = None | Some(value: T)
}
