/** The optional value both engines use where the source has a nullable
    reference or a nullable string. */
module Optional {

  datatype Option<+T> = None | Some(value: T)

}
