/** Option, standing for JavaScript's `null`/`undefined` alongside a present value. */
module Wrappers {

  datatype Option<+T> = None | Some(value: T)
}
