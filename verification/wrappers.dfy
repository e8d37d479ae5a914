/** The optional value the component keeps in its `useState(null)` slots. */
module Wrappers {

  /** `None` stands for the source's `null`; `Some(v)` for a set value. */
  datatype Option<+T> = None | Some(value: T)
}
