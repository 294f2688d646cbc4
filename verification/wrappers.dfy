/** A key of the stored document that may be missing, or a caller-supplied
    default that may be Python's `None`. */
module Wrappers {

  datatype Option<T> = None | Some(value: T)
}
