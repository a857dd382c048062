/** The optional result shared by the modules of this model. */
module Wrappers {

  /** `None` stands for a computation that could not finish, such as a
      generator that ran out of random draws. */
  datatype Option<+T> = None | Some(value: T)
}
