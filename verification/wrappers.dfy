/** The optional-value datatype used for the results of the JSON libraries. */
module Wrappers {

  datatype Option<+T> = None | Some(value: T)
}
