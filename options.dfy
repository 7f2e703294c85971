/** The optional value used wherever the source has `None`, `NaN` or an absent key. */
module Options {

  datatype Option<+T> = None | Some(value: T)
}
