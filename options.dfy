/** The found / not-found result of a lookup. */
module Options {

  datatype Option<+T> = None | Some(value: T)
}
