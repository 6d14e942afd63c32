/** The optional value used wherever the source returns `None`, `null` or a Rust `Option`. */
module Options {
  datatype Option<+T> = None | Some(value: T)
}
