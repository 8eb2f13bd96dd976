/** Results that may be absent: missing keys, errors without a reason, panics. */
module Options {
  datatype Option<T> = None | Some(value: T)
}
