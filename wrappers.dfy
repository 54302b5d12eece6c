/** The optional-value datatype shared by the other modules. */
module Wrappers {

  /** `None` stands for JavaScript's `null`/`undefined`. */
  datatype Option<+T> = None | Some(value: T)
}
