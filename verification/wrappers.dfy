/** The optional-value datatype used throughout the model: `None` stands for a
    value that is absent, such as a name that is no button's name. */
module Wrappers {

  datatype Option<+T> = None | Some(value: T)
}
