/** The value that may be absent: what the source writes as `T | undefined` or `T | null`. */
module Options {
  datatype Option<+T> = None | Some(value: T)
}
