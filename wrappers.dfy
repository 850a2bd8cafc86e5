/** The optional value used for an absent edge weight and for a build that fails. */
module Wrappers {

  datatype Option<+T> = None | Some(value: T)
}
