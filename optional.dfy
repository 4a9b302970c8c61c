/** A value that may be absent: `null` in the source. */
module Optional {
  datatype Option<+T> = None | Some(value: T)
}
