/** The optional value used where the script either produces a value or would
    raise (an index past the end of a list). */
module Wrappers {

  datatype Option<+T> = None | Some(value: T)
}
