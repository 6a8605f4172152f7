/** An optional value: a texture slot that may be empty, a hit that may be
    missing, a transmitted direction that may not exist. */
module Options {
  datatype Option<+T> = None | Some(value: T)
}
