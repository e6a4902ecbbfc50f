/** An optional value: how the model writes a pointer that may be RT_NULL. */
module Options {
  datatype Option<+T> = None | Some(value: T)
}
