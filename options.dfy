/** An optional value: Go's nil-able pointers and (value, error) pairs whose error only selects a fallback. */
module Options {

  datatype Option<+T> = None | Some(value: T)
}
