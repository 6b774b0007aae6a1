/** A value that may be absent: the model's rendering of `undefined` / `null`. */
module Optional {

  datatype Option<+T> = None | Some(value: T)
}
