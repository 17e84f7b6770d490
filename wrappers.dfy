/** The optional value used wherever the modelled code returns `None`, an empty
    `Optional` or leaves a field unset. */
module Wrappers {

  datatype Option<+T> = None | Some(value: T)
}
