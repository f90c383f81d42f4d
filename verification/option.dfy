/** The optional value used where the Python code returns a bare `None`. */
module Optional {

  datatype Option<+T> = None | Some(value: T)

}
