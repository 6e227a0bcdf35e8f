/** The optional value used for steps whose Python counterpart returns `None`
    or raises on one input and goes on with the next. */
module Optional {

  datatype Option<+T> = None | Some(value: T)
}
