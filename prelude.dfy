/** Small value types shared by the other modules. */
module Prelude {

  newtype byte = x: int | 0 <= x < 256

  datatype Option<+T> = None | Some(value: T)
}
