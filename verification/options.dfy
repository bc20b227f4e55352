/** The optional value used where the Ruby code raises: `None` stands for the exception. */
module Options {
  datatype Option<T> = None | Some(value: T)
}
