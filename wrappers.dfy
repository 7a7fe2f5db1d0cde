/** The optional-value datatype used for "no name in the table", "no drop field emitted"
    and "no inner decoder registered". */
module Wrappers {

  datatype Option<+T> = None | Some(value: T)
}
