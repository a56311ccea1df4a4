/** The optional-value datatype used for every parse in the model: a parse
    that the layout rejects yields None instead of raising. */
module Wrappers {

  datatype Option<+T> = None | Some(value: T)
}
