/** An optional value: JavaScript's `undefined` made explicit. */
module Optional {

  datatype Option<+T> = None | Some(value: T)
}
