/** The optional value the model uses wherever the source returns `null`
    or a regular expression finds no match. */
module Wrappers {

  datatype Option<+T> = None | Some(value: T)
}
