/** Small sum types shared by the model. */
module Wrappers {

  /** Python's `None`-or-value. */
  datatype Option<+T> = None | Some(value: T)

  /** The outcome of a Python call that may raise: `Raised` stands for any exception. */
  datatype Attempt<+T> = Returned(value: T) | Raised
}
