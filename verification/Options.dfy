/** The result types shared by the models: an absent value stands for the source's NULL. */
module Options {
  datatype Option<+T> = None | Some(value: T)
}
