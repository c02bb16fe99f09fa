/** An optional value: Go's nil in an `any`, a missing map entry. */
module Options {
  datatype Option<+T> = None | Some(value: T)
}
