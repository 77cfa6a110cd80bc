/** The optional value used for JavaScript's `null`: a state cell that holds
    either nothing or a value. */
module Wrappers {

  datatype Option<+T> = None | Some(value: T)
}
