/** A value that may be missing: a pointer that may be NULL. */
module Options {
  datatype Option<+T> = None | Some(value: T)
}
