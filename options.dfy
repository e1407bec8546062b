/** An optional value: a SQL NULL, a lookup that found no row, a parse that failed. */
module Options {

  datatype Option<+T> = None | Some(value: T)
}
