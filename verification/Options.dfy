/** A value or nothing: a null pointer, an absent key, a lookup out of range. */
module Options {
  datatype Option<+T> = None | Some(value: T)
}
