/** The optional-value datatype used for dictionary lookups and searches. */
module Wrappers {

  datatype Option<+T> = None | Some(value: T)
}
