/** The Option datatype the other modules use for "absent" and "failed". */
module Wrappers {

  datatype Option<+T> = None | Some(value: T)
}
