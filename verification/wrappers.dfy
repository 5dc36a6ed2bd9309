/** The optional value used wherever the game returns `None` or a `Point`. */
module Wrappers {

  datatype Option<+T> = None | Some(value: T)
}
