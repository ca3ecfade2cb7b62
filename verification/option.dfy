/** An optional value: what a search may find, or what a replay of calls may yield. */
module Options {
  datatype Option<T> = None | Some(value: T)
}
