/** The optional-value datatype the scanner and the search use for "nothing found". */
module Wrappers {

  datatype Option<+T> = None | Some(value: T)
}
