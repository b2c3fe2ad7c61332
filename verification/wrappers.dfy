/** The optional-value wrapper used throughout the model: JavaScript's `null`
    and `undefined` become `None`. */
module Wrappers {

  datatype Option<+T> = None | Some(value: T)
}
