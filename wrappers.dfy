/** The usual optional value, used for "not written yet" and "no pending handle". */
module Wrappers {

  datatype Option<+T> = None | Some(value: T)
}
