/** The optional value used for missing record fields and failed searches. */
module Wrappers {

  datatype Option<+T> = None | Some(value: T)
}
