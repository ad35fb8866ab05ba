/** The optional value used for the fields the line parser may leave null. */
module Options {

  datatype Option<+T> = None | Some(value: T)
}
