/** The optional value shared by both components: Swift's `T?`. */
module Options {

  datatype Option<+T> = None | Some(value: T)

}
