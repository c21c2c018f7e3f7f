/** The optional-value type used across the model: `null` or "not called" in the
    components becomes `None`. */
module Wrappers {

  datatype Option<+T> = None | Some(value: T)
}
