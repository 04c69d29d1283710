/**
 An optional value, for results that may be absent (a failed hash, a line
 that yields no event, a missing character).
 */
module Options {
  datatype Option<T> = None | Some(value: T)
}
