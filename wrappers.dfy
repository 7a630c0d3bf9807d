/** The optional value used where script.js returns `null` for "unknown". */
module Wrappers {

  datatype Option<+T> = None | Some(value: T)
}
