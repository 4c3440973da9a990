/** The result of a read that may fail, and a reference that may be unset. */
module Wrappers {

  /** `None` stands for a failed read, or for a string field that is still unset. */
  datatype Option<+T> = None | Some(value: T)
}
