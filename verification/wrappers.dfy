/** The optional value used for fields that may be absent or fail to parse. */
module Wrappers {
  datatype Option<+T> = None | Some(value: T)
}
