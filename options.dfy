/** The optional value used where the uploader has "a value or nothing". */
module Options {
  datatype Option<+T> = None | Some(value: T)
}
