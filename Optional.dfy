/** The optional value the model uses wherever the source has `None`. */
module Optional {
  datatype Option<T> = None | Some(value: T)
}
