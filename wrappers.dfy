/** The optional value used for the results of the abstracted library calls. */
module Wrappers {

  datatype Option<+T> = None | Some(value: T)
}
