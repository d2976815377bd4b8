/** Arguments a JavaScript caller may leave out. */
module Optional {

  /** `None` stands for an absent (undefined or null) argument. */
  datatype Option<+T> = None | Some(value: T)
}
