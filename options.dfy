/** The optional value used for nullable columns and the session slot. */
module Options {

  datatype Option<+T> = None | Some(value: T)
}
