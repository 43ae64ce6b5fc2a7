/** The optional value used for failed peripheral reads and for parsing. */
module Options {

  datatype Option<T> = None | Some(value: T)
}
