/** The optional value used for Java's nullable results and failing capabilities. */
module Wrappers {

  datatype Option<+T> = None | Some(value: T)
}
