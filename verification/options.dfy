/** Optional values: a C++ pointer that may be null, a buffer that may not be written. */
module Options {
  datatype Option<T> = None | Some(value: T)
}
