/** Small datatypes shared by the components of the model. */
module Common {
  datatype Option<+T> = None | Some(value: T)
}
