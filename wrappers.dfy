/** The optional-value type used throughout the model: `None` stands for the
    JavaScript values `null` and `undefined` where the source returns or
    tests them. */
module Wrappers {

  datatype Option<+T> = None | Some(value: T)
}
