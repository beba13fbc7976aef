/** The usual optional value, used for the failures the source reports by an empty result or a return code. */
module Wrappers {

  datatype Option<+T> = None | Some(value: T)
}
