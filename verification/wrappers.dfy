/** The optional value used where the program leaves an attribute unset
    (the root of the tree when no node was ever queued). */
module Wrappers {

  datatype Option<+T> = None | Some(value: T)
}
