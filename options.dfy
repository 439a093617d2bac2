/** The optional value used where the page may or may not have something
    (a chosen file, a running GIF job). */
module Options {
  datatype Option<+T> = None | Some(value: T)
}
