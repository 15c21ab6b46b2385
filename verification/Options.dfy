/** A value that may be missing: Python's and JavaScript's None, null and raised errors. */
module Options {
  datatype Option<+T> = None | Some(value: T)
}
