/** An optional request field. `None` stands for a field the client left out
    (and, where the handlers test truthiness, for the empty string). */
module Optional {

  datatype Option<+T> = None | Some(value: T)
}
