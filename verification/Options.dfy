// A value that may be missing: a pointer that may be NULL, a mutex that may be free.
module Options {

  datatype Option<T> = None | Some(value: T)
}
