/** The optional value used for a user's photo path (None until an upload). */
module Wrappers {

  datatype Option<+T> = None | Some(value: T)
}
