/** The optional-value type shared by the note-engine modules. */
module Wrappers {

  /** `None` stands for an absent value (a missing store key, a write that
      did not happen, a `find` that matched nothing). */
  datatype Option<+T> = None | Some(value: T)
}
