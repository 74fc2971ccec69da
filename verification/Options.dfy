/** A value that may be absent, as for the source's boolean "found" returns and null pointers. */
module Options {
  datatype Option<T> = None | Some(value: T)
}
