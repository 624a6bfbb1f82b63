/** The optional value used wherever the exported system has a nullable field
    or a parse that can fail. */
module Wrappers {

  datatype Option<+T> = None | Some(value: T)
}
