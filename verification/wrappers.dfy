/** The optional-value datatype the model uses where the source returns either
    `false` or a value (the outcome of a win check), or either `[]` or a cell
    (the result of a move search). */
module Wrappers {

  datatype Option<+T> = None | Some(value: T)
}
