/** The optional value used for nullable component state. */
module Wrappers {

  /** `None` stands for JavaScript's `null`. */
  datatype Option<+T> = None | Some(value: T)
}
