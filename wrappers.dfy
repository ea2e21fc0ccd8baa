/** The optional value used for empty grid slots and failed parses. */
module Wrappers {

  datatype Option<+T> = None | Some(value: T)
}
