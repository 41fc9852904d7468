/** The optional value used for a whitelist that may be absent. */
module Optional {

  datatype Option<+T> = None | Some(value: T)

}
