/** The optional-value datatype used by the parsers and the trigger options. */
module Wrappers {
  datatype Option<+T> = None | Some(value: T)
}
