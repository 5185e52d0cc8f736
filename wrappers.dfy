/** The optional value used where the source has `Optional[...]` or may return `None`. */
module Wrappers {
  datatype Option<+T> = None | Some(value: T)
}
