/** The optional value used wherever the source reads something that may be
    absent: an unmounted element ref, an optional prop, a missing file. */
module Options {
  datatype Option<+T> = None | Some(value: T)
}
