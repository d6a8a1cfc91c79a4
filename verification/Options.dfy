/** A value that may be absent: None and what an optional field holds. */
module Options {
  datatype Option<+T> = None | Some(value: T)
}
