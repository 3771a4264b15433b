/** The optional-value datatype shared by the scanner and parser models. */
module Wrappers {

  datatype Option<+T> = None | Some(value: T)
}
