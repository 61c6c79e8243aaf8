/** The "nothing or one value" result used for the validator's optional error. */
module Wrappers {

  datatype Option<+T> = None | Some(value: T)
}
