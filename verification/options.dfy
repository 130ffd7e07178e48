/** The optional value used by the ray scans and the hint operations. */
module Options {

  datatype Option<+T> = None | Some(value: T)
}
