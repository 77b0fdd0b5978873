/** The optional value used where the program yields Python's None. */
module Wrappers {

  datatype Option<+T> = None | Some(value: T)

}
