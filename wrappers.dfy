/** The Option datatype used for "no result" answers. */
module Wrappers {

  datatype Option<+T> = None | Some(value: T)
}
