/** An optional value: Go's nil values, missing map entries and error results. */
module Options {
  datatype Option<+T> = None | Some(value: T)
}
