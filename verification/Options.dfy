/** Values that may be missing: nil in the original. */
module Options {
  datatype Option<+T> = None | Some(value: T)
}
