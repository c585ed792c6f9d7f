/** Optional values, and checks that pass or fail with an error. */
module Options {
  datatype Option<T> = None | Some(value: T)

  datatype Check<E> = Pass | Fail(error: E)
}
