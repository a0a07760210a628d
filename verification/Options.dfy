/** A value that may be missing: Python's None, or an exception that the contract names. */
module Options {
  datatype Option<+T> = None | Some(value: T)
}
