/** The optional value used wherever the source reads a field with `?.` or gets
    `undefined` back from a lookup. */
module Wrappers {

  datatype Option<+T> = None | Some(value: T)
}
