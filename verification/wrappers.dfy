/** The optional-value datatype used where the source accepts a value that
    may be missing (null, undefined or of the wrong type). */
module Wrappers {

  datatype Option<+T> = None | Some(value: T)
}
