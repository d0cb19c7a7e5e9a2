/** The optional value the model uses where the original program has `undefined`. */
module Optional {

  datatype Option<+T> = None | Some(value: T)
}
