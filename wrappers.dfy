/** The optional value shared by the modules of this model. */
module Wrappers {

  /** `None` stands for a missing value (a JavaScript `undefined`, a C null pointer). */
  datatype Option<+T> = None | Some(value: T)
}
