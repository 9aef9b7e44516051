/** The optional value used where the source reads something that may be absent
    (a DOM child past the end of `children`). */
module Wrappers {

  datatype Option<+T> = None | Some(value: T)
}
