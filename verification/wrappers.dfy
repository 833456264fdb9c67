/** The optional value used for failure messages and decoded frames. */
module Wrappers {

  datatype Option<+T> = None | Some(value: T)
}
