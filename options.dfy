/** The optional value used where the source works with a pointer that may be NULL. */
module Options {
  datatype Option<T> = None | Some(value: T)
}
