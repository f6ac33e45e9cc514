/** A value that may be missing (Rust's `Option`). */
module Options {
  datatype Option<+T> = None | Some(value: T)
}
