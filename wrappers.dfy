/** The optional value used for nullable cells and dictionary lookups. */
module Wrappers {

  datatype Option<+T> = None | Some(value: T)
}
