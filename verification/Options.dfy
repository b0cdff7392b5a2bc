/** A value that may be absent: a nil error, a missing key, an index that was not found. */
module Options {
  datatype Option<+T> = None | Some(value: T)
}
