/** The optional-value datatype used for missing inputs and for "no match". */
module Wrappers {

  datatype Option<+T> = None | Some(value: T)
}
