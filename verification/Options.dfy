/** A value that may be a null pointer. */
module Options {
  datatype Option<+T> = None | Some(value: T)
}
