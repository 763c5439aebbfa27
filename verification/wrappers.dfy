/** The optional value used wherever the site holds `null` or a missing reference. */
module Wrappers {

  /** `None` stands for JavaScript's `null`: no open question, no anchor, no active index. */
  datatype Option<+T> = None | Some(value: T)
}
