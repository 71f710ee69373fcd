/** The optional value used wherever the components work with `null`,
    an absent field or a failed parse. */
module Wrappers {

  datatype Option<+T> = None | Some(value: T)

}
