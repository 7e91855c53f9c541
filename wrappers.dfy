/** The optional-value datatype used for the provider's answer and for lookups. */
module Wrappers {

  datatype Option<+T> = None | Some(value: T)
}
