/** The optional value used for an evaluation that may fail. */
module Wrappers {

  /** `None` stands for an evaluation that threw; `Some(v)` for one that
      returned `v`. */
  datatype Option<+T> = None | Some(value: T)
}
