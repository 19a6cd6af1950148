/** The usual optional value, for Python's `None` and for a missing dictionary key. */
module Options {
  datatype Option<+T> = None | Some(value: T)
}
