/** The optional-value datatype used for absent nodes, absent sections and
    unresolved hosts. */
module Wrappers {

  datatype Option<+T> = None | Some(value: T)
}
