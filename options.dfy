/** The optional value used for a nullable reference of the source (a leaf's element,
    a mass point's linked element). */
module Options {
  datatype Option<+T> = None | Some(value: T)
}
