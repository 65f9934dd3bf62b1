/** A value or none, for the kernel's null pointers and -1 results. */
module Options {
  datatype Option<T> = None | Some(value: T)
}
