/** An optional value: the source's nullable results. */
module Options {
  datatype Option<+T> = None | Some(value: T)
}
