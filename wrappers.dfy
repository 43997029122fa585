/** `Option` models a nullable reference: `None` is null. */
module Wrappers {
  datatype Option<+T> = None | Some(value: T)
}
