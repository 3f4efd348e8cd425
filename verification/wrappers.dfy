/** The optional-value datatype used for the parser's "no value" outcome. */
module Wrappers {

  /** `None` stands for the source's 0 ("could not parse") return. */
  datatype Option<+T> = None | Some(value: T)
}
