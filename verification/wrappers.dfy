/** The optional handle that stands in for a nullable pointer. */
module Wrappers {

  /** `None` is the null pointer; `Some(v)` refers to the element `v`. */
  datatype Option<+T> = None | Some(value: T)
}
