/** An optional value: the model's NULL-or-pointer and success-or-failure results. */
module Options {
  datatype Option<+T> = None | Some(value: T)
}
