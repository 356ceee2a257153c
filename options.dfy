/** The optional value used wherever the Python code accepts or returns `None`. */
module Options {
  datatype Option<+T> = None | Some(value: T)
}
