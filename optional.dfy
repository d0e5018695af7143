/** An optional value, for the results the scripts signal with `None` or an
    exception. */
module Optional {
  datatype Option<T> = None | Some(value: T)
}
