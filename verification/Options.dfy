/** A value that may be absent: the sources' `None`. */
module Options {

  datatype Option<T> = None | Some(value: T)
}
