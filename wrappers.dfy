/** Small option type shared by the other modules. */
module Wrappers {

  /** `None` stands for an absent value (a prop that is `undefined`, an
      evaluation that was abandoned). */
  datatype Option<+T> = None | Some(value: T)
}
