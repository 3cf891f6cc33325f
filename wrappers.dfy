/** The optional value used for parse results and tag lookup. */
module Wrappers {

  datatype Option<+T> = None | Some(value: T)
}
