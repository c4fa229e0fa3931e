/** Stock optional-value datatype: `None` stands for the NULL pointer the C code returns. */
module Wrappers {
  datatype Option<+T> = None | Some(value: T)
}
