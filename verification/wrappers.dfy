/** The optional value used for results that may be absent (an unparseable date). */
module Wrappers {

  datatype Option<+T> = None | Some(value: T)
}
