/** The optional value used for lookups that can fail and decoders that can reject. */
module Options {
  datatype Option<T> = None | Some(value: T)
}
