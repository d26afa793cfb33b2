/** The optional-value type used wherever the modelled code may find nothing
    (an absent upload, an empty table, text that does not decode). */
module Wrappers {

  datatype Option<+T> = None | Some(value: T)
}
