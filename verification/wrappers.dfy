/** The optional-value datatype used for the field's selection slots, where the
    component itself uses `null`. */
module Wrappers {

  datatype Option<+T> = None | Some(value: T)
}
