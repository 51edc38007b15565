/** The optional value used for nullable references and failed lookups. */
module Optional {
  datatype Option<+T> = None | Some(value: T)
}
