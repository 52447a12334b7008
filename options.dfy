/** The optional value used for the source's `Option` results. */
module Options {
  datatype Option<+T> = None | Some(value: T)
}
