/** The optional value used wherever the source has a nullable reference or a `Guid?`. */
module Wrappers {

  datatype Option<+T> = None | Some(value: T)
}
