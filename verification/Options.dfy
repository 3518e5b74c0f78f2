/** The optional values used by all other modules. */
module Options {
  datatype Option<+T> = None | Some(value: T)
}
