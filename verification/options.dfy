/** The conventional optional-value datatype, used for "not found" results. */
module Options {

  datatype Option<+T> = None | Some(value: T)
}
