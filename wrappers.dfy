/** The optional value used for absent sub-expressions and for the search walk's results. */
module Wrappers {

  datatype Option<+T> = None | Some(value: T)
}
