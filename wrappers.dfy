/** The "value or absent" result the repository's lookup returns. */
module Wrappers {

  /** `None` stands for JavaScript's `undefined` result of a search that found nothing. */
  datatype Option<+T> = None | Some(value: T)
}
