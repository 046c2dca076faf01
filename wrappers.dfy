/** The optional value used where the source gets back `null` (a regex that does not match). */
module Wrappers {
  datatype Option<+T> = None | Some(value: T)
}
