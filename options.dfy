/** The conventional optional value: a section that is or is not open, a search that may fail. */
module Options {
  datatype Option<T> = None | Some(value: T)
}
