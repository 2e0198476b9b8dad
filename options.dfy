/** An optional value: an option's `=value` part, or a parse that failed. */
module Options {

  datatype Option<T> = None | Some(value: T)
}
