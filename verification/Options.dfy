/** Results the C code reports through NULL or a boolean. */
module Options {
  datatype Option<+T> = None | Some(value: T)
}
