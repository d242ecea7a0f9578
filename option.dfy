/** The optional value used for absent selections and failed steps. */
module Optional {

  datatype Option<+T> = None | Some(value: T)
}
