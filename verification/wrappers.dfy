/** Optional values, used for the parts of a results page that may be absent. */
module Wrappers {

  /** An absent title link or "applied" ribbon on a card, or no login error. */
  datatype Option<+T> = None | Some(value: T)
}
