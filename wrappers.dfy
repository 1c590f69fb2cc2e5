/** The optional value used for the hook's content cache and its explicit path. */
module Wrappers {

  datatype Option<+T> = None | Some(value: T)

}
