/** The Option datatype used by the filter's scan. */
module Options {

  datatype Option<+T> = None | Some(value: T)
}
