/** The Option type shared by every module of the model (a Python `None`-able value). */
module Wrappers {
  datatype Option<+T> = None | Some(value: T)
}
