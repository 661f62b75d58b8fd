/** The optional value used for the source's panicking conversions. */
module Options {
  datatype Option<T> = None | Some(value: T)
}
