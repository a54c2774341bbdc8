/** The optional value used wherever the source returns a nullable reference
    or a rejected promise stands for "no answer". */
module Wrappers {
  datatype Option<+T> = None | Some(value: T)
}
