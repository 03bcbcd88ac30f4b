/** The conventional optional value, used for "no match", "no tag" and "not an integer". */
module Wrappers {

  datatype Option<+T> = None | Some(value: T)
}
