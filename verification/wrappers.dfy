/** The optional-value datatype shared by the other modules. */
module Wrappers {

  /** A value that may be absent: `None` stands for JavaScript's `undefined`
      or for a step that cannot be carried out. */
  datatype Option<T> = None | Some(value: T)
}
