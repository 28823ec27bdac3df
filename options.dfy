/** Nullable links of the C++ code: a slot index or nothing. */
module Options {
  datatype Option<+T> = None | Some(value: T)
}
