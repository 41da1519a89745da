module Wrappers {

  /** A value that may be absent; JavaScript's `undefined` and `null` are both `None`. */
  datatype Option<+T> = None | Some(value: T)
}
