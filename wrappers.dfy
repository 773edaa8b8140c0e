/** The optional value a Dash input carries: `None` until the user picks something. */
module Wrappers {
  datatype Option<+T> = None | Some(value: T)
}
