/** Option type shared by the backend and the client models. */
module Wrappers {
  datatype Option<+T> = None | Some(value: T)
}
