/** An optional value: a parsed unit that may be unknown, or the handle an
    event may touch. */
module Options {

  datatype Option<T> = None | Some(value: T)
}
