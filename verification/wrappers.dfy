/** The optional value used wherever the page script holds `null` or a missing element. */
module Wrappers {

  /** `None` stands for JavaScript's `null`. */
  datatype Option<+T> = None | Some(value: T)
}
