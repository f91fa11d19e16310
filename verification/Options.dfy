/** Values that may be absent: null pointers of the source. */
module Options {
  datatype Option<+T> = None | Some(value: T)
}
