/** The optional value used for nullable references (a parent id, a role). */
module Wrappers {

  datatype Option<+T> = None | Some(value: T)
}
