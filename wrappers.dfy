/** The optional-value datatype the model uses for "no seat found". */
module Wrappers {
  datatype Option<+T> = None | Some(value: T)
}
