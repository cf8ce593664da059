/** The optional value used wherever the modelled code returns `undefined` or `null`. */
module Wrappers {

  datatype Option<+T> = None | Some(value: T)

}
