/** A value that may be absent: the record field `output` is either a string or missing. */
module Wrappers {

  datatype Option<+T> = None | Some(value: T)
}
