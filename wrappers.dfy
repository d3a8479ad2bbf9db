/** The optional value used for task handles that may be absent (a NULL return). */
module Wrappers {

  datatype Option<+T> = None | Some(value: T)
}
