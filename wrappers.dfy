/** The Option datatype used for partial operations (URL parsing). */
module Wrappers {

  datatype Option<+T> = None | Some(value: T)

}
