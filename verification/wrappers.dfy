/** Optional values: a poll that delivered bytes or reported FAILED, a report
    a framer step produced or not. */
module Wrappers {

  datatype Option<+T> = None | Some(value: T)
}
