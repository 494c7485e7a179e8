/** The optional value used wherever the program has "nothing here" or a parse can fail. */
module Options {

  datatype Option<+T> = None | Some(value: T)
}
