/** An optional value, standing for Python's `None`-or-object results. */
module Options {

  datatype Option<T> = None | Some(value: T)
}
