/** The conventional optional value: here, an answer that may be an error or a pointer that may be null. */
module Options {
  datatype Option<+T> = None | Some(value: T)
}
