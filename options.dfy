/** The optional value used throughout the model for "found / not found". */
module Options {
  datatype Option<+T> = None | Some(value: T)
}
